/** One cursor over several sorted runs (table/merger.cc). */
module Merger {
  import opened Keys

  /** `m` is the sorted union of the runs, and no entry is in two of them. */
  ghost predicate IsMerge(m: seq<Entry>, runs: seq<seq<Entry>>) {
    && Sorted(m)
    && (forall i :: 0 <= i < |runs| ==> Sorted(runs[i]))
    && (forall i, e :: 0 <= i < |runs| && e in runs[i] ==> e in m)
    && (forall e :: e in m ==> exists i :: 0 <= i < |runs| && e in runs[i])
    && (forall i, j, e :: 0 <= i < |runs| && 0 <= j < |runs| && e in runs[i] && e in runs[j] ==> i == j)
  }

  /** The first `p` entries of the run are those among the first `k` entries of the union. */
  ghost predicate Front(run: seq<Entry>, p: nat, m: seq<Entry>, k: nat)
    requires k <= |m|
  {
    && p <= |run|
    && (forall j :: 0 <= j < p ==> run[j] in m[..k])
    && (forall j :: p <= j < |run| ==> run[j] in m[k..])
  }

  ghost predicate Forward(runs: seq<seq<Entry>>, ps: seq<nat>, m: seq<Entry>, k: nat)
    requires k <= |m|
  {
    |ps| == |runs| && forall i :: 0 <= i < |runs| ==> Front(runs[i], ps[i], m, k)
  }

  /** How many entries of the run are at or before the cursor; moving backwards, the invalid position
      is before all of them. */
  function Taken(run: seq<Entry>, p: nat): nat {
    if p < |run| then p + 1 else 0
  }

  ghost predicate Backward(runs: seq<seq<Entry>>, ps: seq<nat>, m: seq<Entry>, k: nat)
    requires k <= |m|
  {
    |ps| == |runs| && forall i :: 0 <= i < |runs| ==> ps[i] <= |runs[i]| && Front(runs[i], Taken(runs[i], ps[i]), m, k)
  }

  /** Index of the first entry of a sorted run after `key`. */
  function IndexAfter(run: seq<Entry>, key: InternalKey): (r: nat)
    ensures r <= |run|
  {
    var p := SeekIndex(run, key);
    if p < |run| && run[p].key == key then p + 1 else p
  }

  class MergingIterator {
    const runs: seq<seq<Entry>>
    /** Positions of the child cursors; the length of a run is the invalid position. */
    const children: array<nat>
    var current: Option<nat>
    var forward: bool
    ghost const merged: seq<Entry>
    /** Position in the union; its length is the invalid position. */
    ghost var pos: nat

    ghost predicate Positioned()
      reads this, children
    {
      && children.Length == |runs| && IsMerge(merged, runs)
      && (forall i :: 0 <= i < |runs| ==> children[i] <= |runs[i]|)
    }

    ghost predicate Valid()
      reads this, children
    {
      && Positioned() && pos <= |merged|
      && (current.None? <==> pos == |merged|)
      && (current.Some? ==>
        && current.value < |runs|
        && children[current.value] < |runs[current.value]|
        && runs[current.value][children[current.value]] == merged[pos]
        && (forward ==> Forward(runs, children[..], merged, pos))
        && (!forward ==> Backward(runs, children[..], merged, pos + 1)))
    }

    constructor (runs: seq<seq<Entry>>, ghost merged: seq<Entry>)
      requires IsMerge(merged, runs)
      ensures Valid() && current.None? && fresh(children) && this.runs == runs && this.merged == merged
    {
      this.runs, this.merged := runs, merged;
      children := new nat[|runs|](i requires 0 <= i < |runs| => |runs[i]|);
      current, forward, pos := None, true, |merged|;
    }

    function Current(): (e: Entry)
      requires Valid() && current.Some?
      reads this, children
      ensures e == merged[pos]
    {
      runs[current.value][children[current.value]]
    }

    method SeekToFirst()
      requires Valid()
      modifies this, children
      ensures Valid() && pos == 0
    {
      hide IsMerge, Front;
      for i := 0 to |runs|
        invariant Positioned() && forall j :: 0 <= j < i ==> children[j] == 0
      {
        children[i] := 0;
      }
      AllAtFront(runs, children[..], merged);
      FindSmallest(0);
      forward := true;
    }

    method SeekToLast()
      requires Valid()
      modifies this, children
      ensures Valid() && pos == if |merged| == 0 then 0 else |merged| - 1
    {
      hide IsMerge, Front;
      for i := 0 to |runs|
        invariant Positioned() && forall j :: 0 <= j < i ==> children[j] == if runs[j] == [] then 0 else |runs[j]| - 1
      {
        children[i] := if runs[i] == [] then 0 else |runs[i]| - 1;
      }
      AllAtBack(runs, children[..], merged);
      FindLargest(|merged|);
      forward := false;
    }

    method Seek(target: InternalKey)
      requires Valid()
      modifies this, children
      ensures Valid() && pos == SeekIndex(merged, target)
    {
      hide IsMerge, Front;
      for i := 0 to |runs|
        invariant Positioned() && forall j :: 0 <= j < i ==> children[j] == SeekIndex(runs[j], target)
      {
        children[i] := SeekIndex(runs[i], target);
      }
      AllSought(runs, children[..], merged, target);
      FindSmallest(SeekIndex(merged, target));
      forward := true;
    }

    method Next()
      requires Valid() && current.Some?
      modifies this, children
      ensures Valid() && pos == old(pos) + 1
    {
      hide IsMerge, Front, Forward, Backward;
      var c := current.value;
      var key := runs[c][children[c]].key;
      if !forward {
        for i := 0 to |runs|
          invariant Positioned() && pos == old(pos) && current == Some(c)
          invariant children[c] == old(children[c])
          invariant forall j :: 0 <= j < i && j != c ==> children[j] == IndexAfter(runs[j], key)
        {
          if i != c {
            children[i] := SeekIndex(runs[i], key);
            if children[i] < |runs[i]| && key == runs[i][children[i]].key {
              children[i] := children[i] + 1;
            }
          }
        }
        forward := true;
        TurnedForward(runs, children[..], merged, pos, c);
      }
      StepForward(runs, children[..], merged, pos, c);
      children[c] := children[c] + 1;
      FindSmallest(pos + 1);
    }

    method Prev()
      requires Valid() && current.Some?
      modifies this, children
      ensures Valid() && pos == if old(pos) == 0 then |merged| else old(pos) - 1
    {
      hide IsMerge, Front, Forward, Backward;
      var c := current.value;
      var key := runs[c][children[c]].key;
      if forward {
        for i := 0 to |runs|
          invariant Positioned() && pos == old(pos) && current == Some(c)
          invariant children[c] == old(children[c])
          invariant forall j :: 0 <= j < i && j != c ==> Taken(runs[j], children[j]) == SeekIndex(runs[j], key)
        {
          if i != c {
            children[i] := SeekIndex(runs[i], key);
            if children[i] < |runs[i]| {
              children[i] := if children[i] == 0 then |runs[i]| else children[i] - 1;
            } else {
              children[i] := if runs[i] == [] then 0 else |runs[i]| - 1;
            }
          }
        }
        forward := false;
        TurnedBackward(runs, children[..], merged, pos, c);
      }
      StepBackward(runs, children[..], merged, pos, c);
      children[c] := if children[c] == 0 then |runs[c]| else children[c] - 1;
      FindLargest(pos);
    }

    /** The valid child with the smallest key; among children at the front `k` of the union, that is
        entry `k`. */
    method FindSmallest(ghost k: nat)
      requires Positioned() && k <= |merged| && Forward(runs, children[..], merged, k)
      modifies this
      ensures pos == k && forward == old(forward) && (current.None? <==> k == |merged|)
      ensures current.Some? ==> current.value < |runs| && children[current.value] < |runs[current.value]|
                                && runs[current.value][children[current.value]] == merged[k]
    {
      hide IsMerge, Forward;
      var smallest: Option<nat> := None;
      for i := 0 to |runs|
        invariant smallest.Some? ==> smallest.value < i && children[smallest.value] < |runs[smallest.value]|
        invariant forall j :: 0 <= j < i && children[j] < |runs[j]| ==>
                                smallest.Some? && !Less(runs[j][children[j]].key, runs[smallest.value][children[smallest.value]].key)
      {
        if children[i] < |runs[i]| {
          if smallest.None? {
            smallest := Some(i);
          } else if Less(runs[i][children[i]].key, runs[smallest.value][children[smallest.value]].key) {
            smallest := Some(i);
          }
        }
      }
      current, pos := smallest, k;
      SmallestIsNext(runs, children[..], merged, k, smallest);
    }

    /** The valid child with the largest key. */
    method FindLargest(ghost k: nat)
      requires Positioned() && k <= |merged| && Backward(runs, children[..], merged, k)
      modifies this
      ensures pos == (if k == 0 then |merged| else k - 1) && forward == old(forward) && (current.None? <==> k == 0)
      ensures current.Some? ==> current.value < |runs| && children[current.value] < |runs[current.value]|
                                && runs[current.value][children[current.value]] == merged[pos]
    {
      hide IsMerge, Backward;
      var largest: Option<nat> := None;
      var i := |runs|;
      while i > 0
        invariant 0 <= i <= |runs|
        invariant largest.Some? ==> i <= largest.value < |runs| && children[largest.value] < |runs[largest.value]|
        invariant forall j :: i <= j < |runs| && children[j] < |runs[j]| ==>
                                largest.Some? && !Less(runs[largest.value][children[largest.value]].key, runs[j][children[j]].key)
      {
        i := i - 1;
        if children[i] < |runs[i]| {
          if largest.None? {
            largest := Some(i);
          } else if Less(runs[largest.value][children[largest.value]].key, runs[i][children[i]].key) {
            largest := Some(i);
          }
        }
      }
      current, pos := largest, if k == 0 then |merged| else k - 1;
      LargestIsPrevious(runs, children[..], merged, k, largest);
    }
  }

  lemma IndexOf(s: seq<Entry>, e: Entry) returns (i: nat)
    requires e in s
    ensures i < |s| && s[i] == e
  {
    i :| 0 <= i < |s| && s[i] == e;
  }

  lemma IndexIn(s: seq<Entry>, lo: nat, hi: nat, e: Entry) returns (i: nat)
    requires lo <= hi <= |s| && e in s[lo..hi]
    ensures lo <= i < hi && s[i] == e
  {
    var j :| 0 <= j < hi - lo && s[lo..hi][j] == e;
    i := lo + j;
  }

  /** In a sorted list, key order is index order. */
  lemma ByIndex(m: seq<Entry>, x: nat, k: nat)
    requires Sorted(m) && x < |m| && k < |m|
    ensures Less(m[x].key, m[k].key) <==> x < k
    ensures m[x].key == m[k].key <==> x == k
  {
    assert x < k ==> Less(m[x].key, m[k].key);
    assert k < x ==> Less(m[k].key, m[x].key);
  }

  lemma OnOneSide(m: seq<Entry>, k: nat)
    requires Sorted(m) && k < |m|
    ensures m[k] !in m[..k] && m[k] !in m[k + 1..]
  {
    forall x | 0 <= x < |m| && x != k ensures m[x] != m[k] {
      ByIndex(m, x, k);
    }
  }

  lemma SmallestIsNext(runs: seq<seq<Entry>>, ps: seq<nat>, m: seq<Entry>, k: nat, smallest: Option<nat>)
    requires IsMerge(m, runs) && k <= |m| && Forward(runs, ps, m, k)
    requires smallest.Some? ==> smallest.value < |runs| && ps[smallest.value] < |runs[smallest.value]|
    requires forall j :: 0 <= j < |runs| && ps[j] < |runs[j]| ==>
                           smallest.Some? && !Less(runs[j][ps[j]].key, runs[smallest.value][ps[smallest.value]].key)
    ensures smallest.None? <==> k == |m|
    ensures smallest.Some? ==> runs[smallest.value][ps[smallest.value]] == m[k]
  {
    if k < |m| {
      assert m[k] in m;
      var i :| 0 <= i < |runs| && m[k] in runs[i];
      FrontMeets(runs[i], ps[i], m, k);
      var s := smallest.value;
      assert Front(runs[s], ps[s], m, k);
      var x := IndexIn(m, k, |m|, runs[s][ps[s]]);
      ByIndex(m, k, x);
    } else {
      assert m[k..] == [];
    }
  }

  /** The next entry of the union is the one a child at the front stands on, if it has it. */
  lemma FrontMeets(run: seq<Entry>, p: nat, m: seq<Entry>, k: nat)
    requires Sorted(run) && Sorted(m) && k < |m| && Front(run, p, m, k) && m[k] in run
    requires forall e :: e in run ==> e in m
    ensures p < |run| && run[p] == m[k]
  {
    var j := IndexOf(run, m[k]);
    OnOneSide(m, k);
    var y := IndexIn(m, k, |m|, run[p]);
    ByIndex(run, p, j);
    ByIndex(m, k, y);
  }

  lemma LargestIsPrevious(runs: seq<seq<Entry>>, ps: seq<nat>, m: seq<Entry>, k: nat, largest: Option<nat>)
    requires IsMerge(m, runs) && k <= |m| && Backward(runs, ps, m, k)
    requires largest.Some? ==> largest.value < |runs| && ps[largest.value] < |runs[largest.value]|
    requires forall j :: 0 <= j < |runs| && ps[j] < |runs[j]| ==>
                           largest.Some? && !Less(runs[largest.value][ps[largest.value]].key, runs[j][ps[j]].key)
    ensures largest.None? <==> k == 0
    ensures largest.Some? ==> runs[largest.value][ps[largest.value]] == m[k - 1]
  {
    if k > 0 {
      assert m[k - 1] in m;
      var i :| 0 <= i < |runs| && m[k - 1] in runs[i];
      FrontLast(runs[i], Taken(runs[i], ps[i]), m, k);
      var s := largest.value;
      assert Front(runs[s], ps[s] + 1, m, k);
      var x := IndexIn(m, 0, k, runs[s][ps[s]]);
      ByIndex(m, x, k - 1);
    } else {
      assert m[..k] == [];
    }
  }

  lemma FrontLast(run: seq<Entry>, p: nat, m: seq<Entry>, k: nat)
    requires Sorted(run) && Sorted(m) && 0 < k <= |m| && Front(run, p, m, k) && m[k - 1] in run
    ensures p > 0 && run[p - 1] == m[k - 1]
  {
    var j := IndexOf(run, m[k - 1]);
    OnOneSide(m, k - 1);
    var y := IndexIn(m, 0, k, run[p - 1]);
    ByIndex(run, j, p - 1);
    ByIndex(m, y, k - 1);
  }

  /** An entry of one run is in no other. */
  lemma NotInAnother(m: seq<Entry>, runs: seq<seq<Entry>>, c: nat, p: nat, i: nat)
    requires IsMerge(m, runs) && c < |runs| && i < |runs| && i != c && p < |runs[c]|
    ensures forall e :: e in runs[i] ==> e.key != runs[c][p].key
  {
    var x := runs[c][p];
    assert x in runs[c] && x !in runs[i];
    var a := IndexOf(m, x);
    forall e | e in runs[i] ensures e.key != x.key {
      var b := IndexOf(m, e);
      ByIndex(m, a, b);
    }
  }

  /** Seeking puts a child at the front that belongs to where the union's cursor goes. */
  lemma SoughtFront(run: seq<Entry>, m: seq<Entry>, target: InternalKey)
    requires Sorted(run) && Sorted(m) && forall e :: e in run ==> e in m
    ensures Front(run, SeekIndex(run, target), m, SeekIndex(m, target))
  {
    var p, k := SeekIndex(run, target), SeekIndex(m, target);
    forall j | 0 <= j < |run| ensures if j < p then run[j] in m[..k] else run[j] in m[k..] {
      var x := IndexOf(m, run[j]);
      SideOfSeek(run, target, j);
      SideOfSeek(m, target, x);
    }
  }

  lemma SideOfSeek(m: seq<Entry>, target: InternalKey, x: nat)
    requires Sorted(m) && x < |m|
    ensures x < SeekIndex(m, target) <==> Less(m[x].key, target)
  {
    assert SeekIndex(m, target) < x ==> Less(m[SeekIndex(m, target)].key, m[x].key);
  }

  lemma SeekFindsKey(m: seq<Entry>, k: nat)
    requires Sorted(m) && k < |m|
    ensures SeekIndex(m, m[k].key) == k
  {
    SideOfSeek(m, m[k].key, k);
    ByIndex(m, k, if SeekIndex(m, m[k].key) < |m| then SeekIndex(m, m[k].key) else k);
  }

  lemma AllAtFront(runs: seq<seq<Entry>>, ps: seq<nat>, m: seq<Entry>)
    requires IsMerge(m, runs) && |ps| == |runs| && forall j :: 0 <= j < |runs| ==> ps[j] == 0
    ensures Forward(runs, ps, m, 0)
  {
    assert m[0..] == m;
  }

  lemma AllAtBack(runs: seq<seq<Entry>>, ps: seq<nat>, m: seq<Entry>)
    requires IsMerge(m, runs) && |ps| == |runs|
    requires forall j :: 0 <= j < |runs| ==> ps[j] == if runs[j] == [] then 0 else |runs[j]| - 1
    ensures Backward(runs, ps, m, |m|)
  {
    assert m[..|m|] == m;
  }

  lemma AllSought(runs: seq<seq<Entry>>, ps: seq<nat>, m: seq<Entry>, target: InternalKey)
    requires IsMerge(m, runs) && |ps| == |runs|
    requires forall j :: 0 <= j < |runs| ==> ps[j] == SeekIndex(runs[j], target)
    ensures Forward(runs, ps, m, SeekIndex(m, target))
  {
    forall i | 0 <= i < |runs| ensures Front(runs[i], ps[i], m, SeekIndex(m, target)) {
      SoughtFront(runs[i], m, target);
    }
  }

  /** Around the current entry: its run is at the front just before it and just after it. */
  lemma CurrentFront(run: seq<Entry>, p: nat, m: seq<Entry>, k: nat)
    requires Sorted(run) && Sorted(m) && k < |m| && p < |run| && run[p] == m[k] && forall e :: e in run ==> e in m
    ensures Front(run, p, m, k) && Front(run, p + 1, m, k + 1)
  {
    forall j | 0 <= j < |run|
      ensures if j < p then run[j] in m[..k] else run[j] in m[k..]
      ensures if j < p + 1 then run[j] in m[..k + 1] else run[j] in m[k + 1..]
    {
      var x := IndexOf(m, run[j]);
      ByIndex(run, j, p);
      ByIndex(m, x, k);
    }
  }

  /** A run without entry `k` is at the same front before and after it. */
  lemma OtherFront(run: seq<Entry>, p: nat, m: seq<Entry>, k: nat)
    requires k < |m| && m[k] !in run
    ensures Front(run, p, m, k) <==> Front(run, p, m, k + 1)
  {
    assert m[..k + 1] == m[..k] + [m[k]] && m[k..] == [m[k]] + m[k + 1..];
  }

  lemma TurnedForward(runs: seq<seq<Entry>>, ps: seq<nat>, m: seq<Entry>, k: nat, c: nat)
    requires IsMerge(m, runs) && |ps| == |runs| && k < |m| && c < |runs| && ps[c] < |runs[c]| && runs[c][ps[c]] == m[k]
    requires forall j :: 0 <= j < |runs| && j != c ==> ps[j] == IndexAfter(runs[j], m[k].key)
    ensures Forward(runs, ps, m, k)
  {
    hide Front;
    SeekFindsKey(m, k);
    forall i | 0 <= i < |runs| ensures Front(runs[i], ps[i], m, k) {
      if i == c {
        CurrentFront(runs[c], ps[c], m, k);
      } else {
        SoughtFront(runs[i], m, m[k].key);
        NotInAnother(m, runs, c, ps[c], i);
      }
    }
  }

  lemma TurnedBackward(runs: seq<seq<Entry>>, ps: seq<nat>, m: seq<Entry>, k: nat, c: nat)
    requires IsMerge(m, runs) && |ps| == |runs| && k < |m| && c < |runs| && ps[c] < |runs[c]| && runs[c][ps[c]] == m[k]
    requires forall j :: 0 <= j < |runs| ==> ps[j] <= |runs[j]|
    requires forall j :: 0 <= j < |runs| && j != c ==> Taken(runs[j], ps[j]) == SeekIndex(runs[j], m[k].key)
    ensures Backward(runs, ps, m, k + 1)
  {
    hide Front;
    SeekFindsKey(m, k);
    forall i | 0 <= i < |runs| ensures Front(runs[i], Taken(runs[i], ps[i]), m, k + 1) {
      if i == c {
        CurrentFront(runs[c], ps[c], m, k);
      } else {
        SoughtFront(runs[i], m, m[k].key);
        NotInAnother(m, runs, c, ps[c], i);
        OtherFront(runs[i], Taken(runs[i], ps[i]), m, k);
      }
    }
  }

  lemma StepForward(runs: seq<seq<Entry>>, ps: seq<nat>, m: seq<Entry>, k: nat, c: nat)
    requires IsMerge(m, runs) && k < |m| && c < |runs| && Forward(runs, ps, m, k)
    requires ps[c] < |runs[c]| && runs[c][ps[c]] == m[k]
    ensures Forward(runs, ps[c := ps[c] + 1], m, k + 1)
  {
    hide Front;
    forall i | 0 <= i < |runs| ensures Front(runs[i], ps[c := ps[c] + 1][i], m, k + 1) {
      if i == c {
        CurrentFront(runs[c], ps[c], m, k);
      } else {
        NotInAnother(m, runs, c, ps[c], i);
        OtherFront(runs[i], ps[i], m, k);
      }
    }
  }

  lemma StepBackward(runs: seq<seq<Entry>>, ps: seq<nat>, m: seq<Entry>, k: nat, c: nat)
    requires IsMerge(m, runs) && k < |m| && c < |runs| && Backward(runs, ps, m, k + 1)
    requires ps[c] < |runs[c]| && runs[c][ps[c]] == m[k]
    ensures Backward(runs, ps[c := if ps[c] == 0 then |runs[c]| else ps[c] - 1], m, k)
  {
    hide Front;
    var ps1 := ps[c := if ps[c] == 0 then |runs[c]| else ps[c] - 1];
    forall i | 0 <= i < |runs| ensures ps1[i] <= |runs[i]| && Front(runs[i], Taken(runs[i], ps1[i]), m, k) {
      if i == c {
        CurrentFront(runs[c], ps[c], m, k);
      } else {
        NotInAnother(m, runs, c, ps[c], i);
        OtherFront(runs[i], Taken(runs[i], ps[i]), m, k);
      }
    }
  }

  /** Runs without a common entry key have a sorted union. */
  lemma {:induction false} MergeExists(runs: seq<seq<Entry>>) returns (m: seq<Entry>)
    requires forall i :: 0 <= i < |runs| ==> Sorted(runs[i])
    requires forall i, j, x, y :: 0 <= i < j < |runs| && x in runs[i] && y in runs[j] ==> x.key != y.key
    ensures IsMerge(m, runs)
  {
    if runs == [] {
      m := [];
    } else {
      hide Sorted, IsMerge;
      var rest, last := runs[..|runs| - 1], runs[|runs| - 1];
      assert forall i :: 0 <= i < |rest| ==> rest[i] == runs[i];
      var m0 := MergeExists(rest);
      MergedApart(runs, m0);
      m := MergeTwo(m0, last);
      OneMoreRun(runs, m0, m);
    }
  }

  lemma MergedApart(runs: seq<seq<Entry>>, m0: seq<Entry>)
    requires runs != [] && IsMerge(m0, runs[..|runs| - 1])
    requires forall i, j, x, y :: 0 <= i < j < |runs| && x in runs[i] && y in runs[j] ==> x.key != y.key
    ensures Sorted(m0) && forall x, y :: x in m0 && y in runs[|runs| - 1] ==> x.key != y.key
  {
    hide Sorted;
    forall x, y | x in m0 && y in runs[|runs| - 1] ensures x.key != y.key {
      var i :| 0 <= i < |runs| - 1 && x in runs[..|runs| - 1][i];
      assert x in runs[i];
    }
  }

  lemma NoCommonEntry(a: seq<Entry>, b: seq<Entry>, e: Entry)
    requires forall x, y :: x in a && y in b ==> x.key != y.key
    ensures !(e in a && e in b)
  {
  }

  lemma OneMoreRun(runs: seq<seq<Entry>>, m0: seq<Entry>, m: seq<Entry>)
    requires runs != [] && IsMerge(m0, runs[..|runs| - 1])
    requires forall i :: 0 <= i < |runs| ==> Sorted(runs[i])
    requires forall x, y :: x in m0 && y in runs[|runs| - 1] ==> x.key != y.key
    requires Sorted(m) && forall e :: e in m <==> e in m0 || e in runs[|runs| - 1]
    ensures IsMerge(m, runs)
  {
    hide Sorted;
    var n := |runs| - 1;
    var rest := runs[..n];
    forall e | e in m ensures exists i :: 0 <= i < |runs| && e in runs[i] {
      if e in m0 {
        var i :| 0 <= i < |rest| && e in rest[i];
        assert e in runs[i];
      } else {
        assert e in runs[n];
      }
    }
    forall i, e | 0 <= i < |runs| && e in runs[i] ensures e in m && (i < n ==> e in m0) {
      if i < n {
        assert e in rest[i];
      }
    }
    forall e ensures !(e in m0 && e in runs[n]) {
      NoCommonEntry(m0, runs[n], e);
    }
    forall i, j, e | 0 <= i < |runs| && 0 <= j < |runs| && e in runs[i] && e in runs[j] ensures i == j {
      if i < n && j < n {
        assert e in rest[i] && e in rest[j];
      }
    }
  }

  lemma {:induction false} MergeTwo(a: seq<Entry>, b: seq<Entry>) returns (m: seq<Entry>)
    requires Sorted(a) && Sorted(b) && forall x, y :: x in a && y in b ==> x.key != y.key
    ensures Sorted(m) && forall e :: e in m <==> e in a || e in b
  {
    if a == [] {
      m := b;
    } else if b == [] {
      m := a;
    } else if Less(a[0].key, b[0].key) {
      var rest := MergeTwo(a[1..], b);
      m := [a[0]] + rest;
      FirstIsLeast(a, b, rest);
      assert a == [a[0]] + a[1..];
    } else {
      var rest := MergeTwo(a, b[1..]);
      m := [b[0]] + rest;
      assert a[0] in a && b[0] in b;
      FirstIsLeast(b, a, rest);
      assert b == [b[0]] + b[1..];
    }
  }

  lemma FirstIsLeast(a: seq<Entry>, b: seq<Entry>, rest: seq<Entry>)
    requires a != [] && b != [] && Sorted(a) && Sorted(b) && Less(a[0].key, b[0].key)
    requires Sorted(rest) && forall e :: e in rest ==> e in a[1..] || e in b
    ensures Sorted([a[0]] + rest)
  {
    forall e | e in rest ensures Less(a[0].key, e.key) {
      if e in a[1..] {
        var i := IndexOf(a[1..], e);
        assert a[i + 1] == e;
      } else {
        var i := IndexOf(b, e);
        assert i == 0 || Less(b[0].key, b[i].key);
      }
    }
    var m := [a[0]] + rest;
    forall i, j | 0 <= i < j < |m| ensures Less(m[i].key, m[j].key) {
      assert m[j] == rest[j - 1];
    }
  }
}
