/** The skip list, store by store (db/skiplist.h). Nodes are places in an arena that only grows; node 0
    is the head. Every change of memory is one store, and a reader may run between any two of them. */
module SkipList {
  import opened Keys

  const MAX_HEIGHT: nat := 12

  /** A key, by its place in the comparator's order. */
  type Key = real

  datatype Memory = Memory(keys: seq<Key>, next: seq<seq<Option<nat>>>, maxHeight: nat)

  /** Memory with the list of nodes of every level. */
  datatype State = State(m: Memory, lists: seq<seq<nat>>)

  /** Node `i` of a list; before the first one there is the head. */
  function NodeAt(list: seq<nat>, i: int): nat
    requires -1 <= i < |list|
  {
    if i == -1 then 0 else list[i]
  }

  function After(list: seq<nat>, i: int): Option<nat>
    requires -1 <= i < |list|
  {
    if i + 1 < |list| then Some(list[i + 1]) else None
  }

  /** The links of level `l` lead through exactly the nodes of `list`, in key order. */
  ghost predicate Chain(m: Memory, list: seq<nat>, l: nat) {
    && |m.keys| == |m.next|
    && (forall i :: 0 <= i < |list| ==> 0 < list[i] < |m.keys|)
    && (forall i, j :: 0 <= i < j < |list| ==> m.keys[list[i]] < m.keys[list[j]])
    && (forall i :: -1 <= i < |list| ==> NodeAt(list, i) < |m.next| && l < |m.next[NodeAt(list, i)]|
                                         && m.next[NodeAt(list, i)][l] == After(list, i))
  }

  /** Every level is sorted and a part of the level below; levels not in use are empty. */
  ghost predicate Inv(st: State) {
    && |st.lists| == MAX_HEIGHT && 1 <= st.m.maxHeight <= MAX_HEIGHT
    && (forall l :: 0 <= l < MAX_HEIGHT ==> Chain(st.m, st.lists[l], l))
    && (forall l, k, n :: 0 <= l < MAX_HEIGHT && k == l + 1 && k < MAX_HEIGHT && n in st.lists[k] ==> n in st.lists[l])
    && (forall l :: st.m.maxHeight <= l < MAX_HEIGHT ==> st.lists[l] == [])
  }

  /** Nothing is ever taken away: a node once on a level stays there, and keys do not change. */
  ghost predicate Grows(a: State, b: State) {
    && |a.lists| == |b.lists|
    && (forall l, n :: 0 <= l < |a.lists| && n in a.lists[l] ==> n in b.lists[l])
    && |a.m.keys| <= |b.m.keys| && (forall n :: 0 <= n < |a.m.keys| ==> b.m.keys[n] == a.m.keys[n])
  }

  lemma GrowsOn(a: State, b: State, c: State)
    requires Grows(a, b) && Grows(b, c)
    ensures Grows(a, c)
  {
  }

  /** One store to a link. */
  function WithNext(m: Memory, n: nat, l: nat, v: Option<nat>): (r: Memory)
    requires n < |m.next| && l < |m.next[n]|
    ensures r.keys == m.keys && r.maxHeight == m.maxHeight
  {
    m.(next := m.next[n := m.next[n][l := v]])
  }

  function Nones(height: nat): (r: seq<Option<nat>>)
    ensures |r| == height && forall l :: 0 <= l < height ==> r[l] == None
  {
    if height == 0 then [] else Nones(height - 1) + [None]
  }

  function WithNode(m: Memory, key: Key, height: nat): Memory {
    m.(keys := m.keys + [key], next := m.next + [Nones(height)])
  }

  /** Memory changes by one store: to the height, to one link, or by a new node to which no link leads. */
  ghost predicate OneStore(a: Memory, b: Memory) {
    || b == a.(maxHeight := b.maxHeight)
    || (exists n: nat, l: nat, v :: n < |a.next| && l < |a.next[n]| && b == WithNext(a, n, l, v))
    || (exists key, height :: b == WithNode(a, key, height))
  }

  /** The states a reader may see, one after another, each one store after the one before. */
  ghost predicate Run(trace: seq<State>) {
    && (forall t :: 0 <= t < |trace| ==> Inv(trace[t]))
    && (forall t, u :: 0 <= t && u == t + 1 && u < |trace| ==> OneStore(trace[t].m, trace[u].m))
    && (forall t, u :: 0 <= t <= u < |trace| ==> Grows(trace[t], trace[u]))
  }

  lemma RunGrows(trace: seq<State>, st: State)
    requires Run(trace) && trace != [] && Inv(st) && Grows(trace[|trace| - 1], st)
    requires OneStore(trace[|trace| - 1].m, st.m)
    ensures Run(trace + [st])
  {
    hide Inv, Grows, OneStore;
    var trace1 := trace + [st];
    GrowsItself(st);
    forall t, u | 0 <= t <= u < |trace1| ensures Grows(trace1[t], trace1[u]) {
      if t < |trace| && u == |trace| {
        GrowsOn(trace[t], trace[|trace| - 1], st);
      }
    }
  }

  lemma OneLink(m: Memory, n: nat, l: nat, v: Option<nat>)
    requires n < |m.next| && l < |m.next[n]|
    ensures OneStore(m, WithNext(m, n, l, v))
  {
    hide WithNext;
  }

  lemma GrowsItself(st: State)
    ensures Grows(st, st)
  {
  }

  /** A search under way: at node `x`, all before it done, on level `level`. */
  datatype Search = Search(x: nat, level: nat)

  /** A missing target is behind all keys. */
  predicate Before(k: Key, target: Option<Key>) {
    target.None? || k < target.value
  }

  /** The node after the search position. */
  function Load(m: Memory, s: Search): Option<nat>
    requires s.x < |m.next| && s.level < |m.next[s.x]|
  {
    m.next[s.x][s.level]
  }

  /** One round of the search loop: on if the next key is still before the target, else a level down. */
  function Advance(m: Memory, target: Option<Key>, s: Search): Search
    requires s.x < |m.next| && s.level < |m.next[s.x]|
    requires Load(m, s).Some? ==> Load(m, s).value < |m.keys|
  {
    if Load(m, s).Some? && Before(m.keys[Load(m, s).value], target) then Search(Load(m, s).value, s.level)
    else Search(s.x, if s.level == 0 then 0 else s.level - 1)
  }

  /** The search has nothing more to do: it is on the lowest level and the next key is not before the target. */
  predicate Stops(m: Memory, target: Option<Key>, s: Search)
    requires s.x < |m.next| && s.level < |m.next[s.x]|
    requires Load(m, s).Some? ==> Load(m, s).value < |m.keys|
  {
    s.level == 0 && !(Load(m, s).Some? && Before(m.keys[Load(m, s).value], target))
  }

  /** Where a search may be: at the head, or at a node of its level before the target. */
  ghost predicate Reached(st: State, target: Option<Key>, s: Search) {
    && s.level < MAX_HEIGHT && |st.lists| == MAX_HEIGHT
    && (s.x == 0 || (s.x in st.lists[s.level] && s.x < |st.m.keys| && Before(st.m.keys[s.x], target)))
  }

  lemma ReachedIsIndex(st: State, target: Option<Key>, s: Search) returns (i: int)
    requires Inv(st) && Reached(st, target, s)
    ensures -1 <= i < |st.lists[s.level]| && NodeAt(st.lists[s.level], i) == s.x
    ensures s.x < |st.m.next| && s.level < |st.m.next[s.x]| && Load(st.m, s) == After(st.lists[s.level], i)
    ensures Load(st.m, s).Some? ==> 0 < Load(st.m, s).value < |st.m.keys|
  {
    assert Chain(st.m, st.lists[s.level], s.level);
    if s.x == 0 {
      i := -1;
    } else {
      i :| 0 <= i < |st.lists[s.level]| && st.lists[s.level][i] == s.x;
    }
    assert NodeAt(st.lists[s.level], i) == s.x;
  }

  /** A place reached stays reached, whatever the writer stores. */
  lemma ReachedIsStable(a: State, b: State, target: Option<Key>, s: Search)
    requires Reached(a, target, s) && Grows(a, b)
    ensures Reached(b, target, s)
  {
  }

  lemma AdvanceReaches(st: State, target: Option<Key>, s: Search)
    requires Inv(st) && Reached(st, target, s)
    ensures s.x < |st.m.next| && s.level < |st.m.next[s.x]|
    ensures Load(st.m, s).Some? ==> Load(st.m, s).value < |st.m.keys|
    ensures Reached(st, target, Advance(st.m, target, s))
  {
    var i := ReachedIsIndex(st, target, s);
    var list := st.lists[s.level];
    assert i + 1 < |list| ==> list[i + 1] in list;
    var l: int := s.level - 1;
    assert s.level > 0 && s.x != 0 ==> s.x in st.lists[l];
  }

  /** The first node of the lowest level that is not before the target, if there is one. */
  ghost predicate IsFirst(st: State, target: Option<Key>, r: Option<nat>)
    requires Inv(st)
  {
    && (r.Some? ==> r.value in st.lists[0] && r.value < |st.m.keys| && !Before(st.m.keys[r.value], target))
    && (forall n :: n in st.lists[0] && n < |st.m.keys| ==>
          (Before(st.m.keys[n], target) || (r.Some? && st.m.keys[r.value] <= st.m.keys[n])))
  }

  /** The last node of the lowest level before the target, or the head. */
  ghost predicate IsLastBefore(st: State, target: Option<Key>, x: nat)
    requires Inv(st)
  {
    && (x != 0 ==> x in st.lists[0] && x < |st.m.keys| && Before(st.m.keys[x], target))
    && (forall n :: n in st.lists[0] && n < |st.m.keys| && Before(st.m.keys[n], target) ==>
          x != 0 && x < |st.m.keys| && st.m.keys[n] <= st.m.keys[x])
  }

  /** A search that stops has found its place in the list as it is at that load. */
  lemma StopIsRight(st: State, target: Option<Key>, s: Search)
    requires Inv(st) && Reached(st, target, s)
    ensures s.x < |st.m.next| && s.level < |st.m.next[s.x]|
    ensures Load(st.m, s).Some? ==> Load(st.m, s).value < |st.m.keys|
    ensures Stops(st.m, target, s) ==> IsFirst(st, target, Load(st.m, s)) && IsLastBefore(st, target, s.x)
  {
    var i := ReachedIsIndex(st, target, s);
    var list := st.lists[s.level];
    if Stops(st.m, target, s) {
      assert Chain(st.m, list, 0);
      forall n | n in list && n < |st.m.keys|
        ensures exists j :: 0 <= j < |list| && list[j] == n
        ensures Before(st.m.keys[n], target) || (Load(st.m, s).Some? && st.m.keys[Load(st.m, s).value] <= st.m.keys[n])
        ensures Before(st.m.keys[n], target) ==> s.x != 0 && st.m.keys[n] <= st.m.keys[s.x]
      {
        var j :| 0 <= j < |list| && list[j] == n;
        if j <= i {
          assert j == i || st.m.keys[list[j]] < st.m.keys[list[i]];
        } else {
          assert j == i + 1 || st.m.keys[list[i + 1]] < st.m.keys[list[j]];
        }
      }
    }
  }

  /** A reader among writers: it takes the height at one state of the run and then loads one link at a
      time, load `j` at state `times[j]`. */
  ghost predicate Reads(trace: seq<State>, target: Option<Key>, times: seq<nat>, steps: seq<Search>)
    requires Run(trace)
  {
    && |steps| == |times| && times != []
    && (forall j :: 0 <= j < |times| ==> times[j] < |trace|)
    && (forall j, k :: 0 <= j < k < |times| ==> times[j] <= times[k])
    && steps[0].x == 0 && steps[0].level < MAX_HEIGHT
    && (forall j, k :: 0 <= j && k == j + 1 && k < |times| ==> StepsTo(trace[times[j]].m, target, steps[j], steps[k]))
  }

  ghost predicate StepsTo(m: Memory, target: Option<Key>, s: Search, s1: Search) {
    && s.x < |m.next| && s.level < |m.next[s.x]| && (Load(m, s).Some? ==> Load(m, s).value < |m.keys|)
    && s1 == Advance(m, target, s)
  }

  lemma {:induction false} ReaderStaysInLists(trace: seq<State>, target: Option<Key>, times: seq<nat>, steps: seq<Search>, j: nat)
    requires Run(trace) && Reads(trace, target, times, steps) && j < |times|
    ensures Reached(trace[times[j]], target, steps[j])
    decreases j
  {
    hide Inv, Grows, Advance, Reached;
    if j == 0 {
      StartIsReached(trace[times[0]], target, steps[0]);
    } else {
      var i: nat := j - 1;
      ReaderStaysInLists(trace, target, times, steps, i);
      AdvanceReaches(trace[times[i]], target, steps[i]);
      assert StepsTo(trace[times[i]].m, target, steps[i], steps[j]);
      ReachedIsStable(trace[times[i]], trace[times[j]], target, steps[j]);
    }
  }

  lemma StartIsReached(st: State, target: Option<Key>, s: Search)
    requires Inv(st) && s.x == 0 && s.level < MAX_HEIGHT
    ensures Reached(st, target, s)
  {
  }

  /** Whatever stores come between its loads, a reader that stops returns the first key at or after its
      target, and stands on the last key before it, in the list as it is at its last load. */
  lemma InterleavedSearch(trace: seq<State>, target: Option<Key>, times: seq<nat>, steps: seq<Search>)
    requires Run(trace) && Reads(trace, target, times, steps)
    ensures var st, s := trace[times[|times| - 1]], steps[|times| - 1];
            && s.x < |st.m.next| && s.level < |st.m.next[s.x]| && (Load(st.m, s).Some? ==> Load(st.m, s).value < |st.m.keys|)
            && (Stops(st.m, target, s) ==> IsFirst(st, target, Load(st.m, s)) && IsLastBefore(st, target, s.x))
  {
    hide Inv, Grows, Reached, IsFirst, IsLastBefore, Stops, Load;
    var j: nat := |times| - 1;
    ReaderStaysInLists(trace, target, times, steps, j);
    StopIsRight(trace[times[j]], target, steps[j]);
  }

  function Inserted(list: seq<nat>, a: int, x: nat): (r: seq<nat>)
    requires -1 <= a < |list|
    ensures |r| == |list| + 1
  {
    list[..a + 1] + [x] + list[a + 1..]
  }

  /** A level's links are not disturbed by a store to another level or to a node that is not on it. */
  lemma OtherStore(m: Memory, list: seq<nat>, l: nat, n: nat, k: nat, v: Option<nat>)
    requires Chain(m, list, l) && n < |m.next| && k < |m.next[n]|
    requires l != k || (n != 0 && n !in list)
    ensures Chain(WithNext(m, n, k, v), list, l)
  {
    var m1 := WithNext(m, n, k, v);
    forall i | -1 <= i < |list|
      ensures NodeAt(list, i) < |m1.next| && l < |m1.next[NodeAt(list, i)]| && m1.next[NodeAt(list, i)][l] == After(list, i)
    {
      assert m.next[NodeAt(list, i)][l] == After(list, i);
      assert i >= 0 ==> list[i] in list;
    }
  }

  lemma InsertedAt(list: seq<nat>, a: int, x: nat, i: int)
    requires -1 <= a < |list| && 0 <= i < |list| + 1
    ensures Inserted(list, a, x)[i] == if i <= a then list[i] else if i == a + 1 then x else list[i - 1]
  {
  }

  lemma InsertedInOrder(m: Memory, list: seq<nat>, a: int, x: nat)
    requires -1 <= a < |list| && 0 < x < |m.keys|
    requires forall i :: 0 <= i < |list| ==> 0 < list[i] < |m.keys|
    requires forall i, j :: 0 <= i < j < |list| ==> m.keys[list[i]] < m.keys[list[j]]
    requires a >= 0 ==> m.keys[list[a]] < m.keys[x]
    requires a + 1 < |list| ==> m.keys[x] < m.keys[list[a + 1]]
    ensures var list1 := Inserted(list, a, x);
            && (forall i :: 0 <= i < |list1| ==> 0 < list1[i] < |m.keys|)
            && (forall i, j :: 0 <= i < j < |list1| ==> m.keys[list1[i]] < m.keys[list1[j]])
  {
    hide Inserted;
    var list1 := Inserted(list, a, x);
    forall i | 0 <= i < |list1| ensures 0 < list1[i] < |m.keys| {
      InsertedAt(list, a, x, i);
    }
    forall i | 0 <= i < |list|
      ensures i <= a ==> m.keys[list[i]] < m.keys[x]
      ensures i > a ==> m.keys[x] < m.keys[list[i]]
    {
      assert i < a ==> m.keys[list[i]] < m.keys[list[a]];
      assert i > a + 1 ==> m.keys[list[a + 1]] < m.keys[list[i]];
    }
    forall i, j | 0 <= i < j < |list1| ensures m.keys[list1[i]] < m.keys[list1[j]] {
      InsertedAt(list, a, x, i);
      InsertedAt(list, a, x, j);
    }
  }

  lemma ChainAt(m: Memory, list: seq<nat>, l: nat, i: int)
    requires Chain(m, list, l) && -1 <= i < |list|
    ensures |m.keys| == |m.next|
    ensures NodeAt(list, i) < |m.next| && l < |m.next[NodeAt(list, i)]| && m.next[NodeAt(list, i)][l] == After(list, i)
  {
  }

  /** Different places of a level hold different nodes. */
  lemma NodesDiffer(m: Memory, list: seq<nat>, l: nat, i: int, j: int)
    requires Chain(m, list, l) && -1 <= i < |list| && -1 <= j < |list| && i != j
    ensures NodeAt(list, i) != NodeAt(list, j)
  {
    if 0 <= i && 0 <= j {
      assert if i < j then m.keys[list[i]] < m.keys[list[j]] else m.keys[list[j]] < m.keys[list[i]];
    }
  }

  /** Linking node `x` in after place `a` of a level. */
  lemma LinkIn(m: Memory, list: seq<nat>, l: nat, a: int, x: nat)
    requires Chain(m, list, l) && -1 <= a < |list|
    requires 0 < x < |m.keys| && l < |m.next[x]| && x !in list && m.next[x][l] == After(list, a)
    requires a >= 0 ==> m.keys[list[a]] < m.keys[x]
    requires a + 1 < |list| ==> m.keys[x] < m.keys[list[a + 1]]
    ensures NodeAt(list, a) < |m.next| && l < |m.next[NodeAt(list, a)]|
    ensures Chain(WithNext(m, NodeAt(list, a), l, Some(x)), Inserted(list, a, x), l)
  {
    hide WithNext, Inserted, NodeAt, After;
    ChainAt(m, list, l, a);
    var p := NodeAt(list, a);
    var m1, list1 := WithNext(m, p, l, Some(x)), Inserted(list, a, x);
    InsertedInOrder(m, list, a, x);
    SameKeys(m, p, l, Some(x));
    forall i | -1 <= i < |list1|
      ensures NodeAt(list1, i) < |m1.next| && l < |m1.next[NodeAt(list1, i)]| && m1.next[NodeAt(list1, i)][l] == After(list1, i)
    {
      LinkAt(m, list, l, a, x, i);
    }
  }

  lemma LinkAt(m: Memory, list: seq<nat>, l: nat, a: int, x: nat, i: int)
    requires Chain(m, list, l) && -1 <= a < |list| && -1 <= i < |Inserted(list, a, x)|
    requires 0 < x < |m.keys| && l < |m.next[x]| && x !in list && m.next[x][l] == After(list, a)
    ensures NodeAt(list, a) < |m.next| && l < |m.next[NodeAt(list, a)]|
    ensures var m1, list1 := WithNext(m, NodeAt(list, a), l, Some(x)), Inserted(list, a, x);
            NodeAt(list1, i) < |m1.next| && l < |m1.next[NodeAt(list1, i)]| && m1.next[NodeAt(list1, i)][l] == After(list1, i)
  {
    hide Chain, Inserted;
    ChainAt(m, list, l, a);
    if i >= 0 {
      InsertedAt(list, a, x, i);
    } else {
      InsertedAt(list, a, x, 0);
    }
    if i + 1 < |list| + 1 {
      InsertedAt(list, a, x, i + 1);
    }
    if i <= a {
      ChainAt(m, list, l, i);
      if i < a {
        NodesDiffer(m, list, l, i, a);
      }
    } else if i > a + 1 {
      ChainAt(m, list, l, i - 1);
      NodesDiffer(m, list, l, i - 1, a);
    } else {
      assert a >= 0 ==> list[a] in list;
    }
  }

  /** Storing a link of a node that is not on that level yet. */
  lemma OwnStore(st: State, x: nat, l: nat, v: Option<nat>)
    requires Inv(st) && 0 < x < |st.m.next| && l < |st.m.next[x]| && l < MAX_HEIGHT && x !in st.lists[l]
    ensures var st1 := State(WithNext(st.m, x, l, v), st.lists);
            Inv(st1) && Grows(st, st1)
  {
    hide Chain;
    forall k | 0 <= k < MAX_HEIGHT ensures Chain(WithNext(st.m, x, l, v), st.lists[k], k) {
      OtherStore(st.m, st.lists[k], k, x, l, v);
    }
  }

  /** The one store that publishes a node on a level. */
  lemma PublishStore(st: State, l: nat, a: int, x: nat)
    requires Inv(st) && l < st.m.maxHeight && -1 <= a < |st.lists[l]|
    requires 0 < x < |st.m.keys| && |st.m.keys| == |st.m.next| && l < |st.m.next[x]|
    requires forall k :: l <= k < MAX_HEIGHT ==> x !in st.lists[k]
    requires forall k :: 0 <= k < l ==> x in st.lists[k]
    requires st.m.next[x][l] == After(st.lists[l], a)
    requires a >= 0 ==> st.lists[l][a] < |st.m.keys| && st.m.keys[st.lists[l][a]] < st.m.keys[x]
    requires a + 1 < |st.lists[l]| ==> st.lists[l][a + 1] < |st.m.keys| && st.m.keys[x] < st.m.keys[st.lists[l][a + 1]]
    ensures NodeAt(st.lists[l], a) < |st.m.next| && l < |st.m.next[NodeAt(st.lists[l], a)]|
    ensures var st1 := State(WithNext(st.m, NodeAt(st.lists[l], a), l, Some(x)), st.lists[l := Inserted(st.lists[l], a, x)]);
            Inv(st1) && Grows(st, st1)
  {
    hide Chain, WithNext, NodeAt;
    var list := st.lists[l];
    LinkIn(st.m, list, l, a, x);
    var m1, lists1 := WithNext(st.m, NodeAt(list, a), l, Some(x)), st.lists[l := Inserted(list, a, x)];
    forall k | 0 <= k < MAX_HEIGHT ensures Chain(m1, lists1[k], k) {
      if k != l {
        OtherStore(st.m, st.lists[k], k, NodeAt(list, a), l, Some(x));
      }
    }
    InsertedHas(list, a, x);
    SameKeys(st.m, NodeAt(list, a), l, Some(x));
  }

  lemma SameKeys(m: Memory, n: nat, l: nat, v: Option<nat>)
    requires n < |m.next| && l < |m.next[n]|
    ensures WithNext(m, n, l, v).keys == m.keys && WithNext(m, n, l, v).maxHeight == m.maxHeight
    ensures |WithNext(m, n, l, v).next| == |m.next|
  {
  }

  lemma InsertedHas(list: seq<nat>, a: int, x: nat)
    requires -1 <= a < |list|
    ensures forall n :: n in Inserted(list, a, x) <==> n == x || n in list
  {
    assert list == list[..a + 1] + list[a + 1..];
  }

  lemma HeightStore(st: State, h: nat)
    requires Inv(st) && st.m.maxHeight <= h <= MAX_HEIGHT
    ensures var st1 := State(st.m.(maxHeight := h), st.lists); Inv(st1) && Grows(st, st1)
  {
    forall l | 0 <= l < MAX_HEIGHT ensures Chain(st.m.(maxHeight := h), st.lists[l], l) {
      assert Chain(st.m, st.lists[l], l);
    }
  }

  lemma NodeStore(st: State, key: Key, height: nat)
    requires Inv(st)
    ensures var st1 := State(WithNode(st.m, key, height), st.lists); Inv(st1) && Grows(st, st1)
    ensures |st.m.keys| == |st.m.next| > 0
    ensures forall l :: 0 <= l < MAX_HEIGHT ==> |st.m.keys| !in st.lists[l]
  {
    var m1 := WithNode(st.m, key, height);
    assert Chain(st.m, st.lists[0], 0) && NodeAt(st.lists[0], -1) == 0;
    forall l | 0 <= l < MAX_HEIGHT ensures Chain(m1, st.lists[l], l) && |st.m.keys| !in st.lists[l] {
      var list := st.lists[l];
      assert Chain(st.m, list, l);
      forall i | -1 <= i < |list|
        ensures NodeAt(list, i) < |m1.next| && l < |m1.next[NodeAt(list, i)]| && m1.next[NodeAt(list, i)][l] == After(list, i)
      {
        assert m1.next[NodeAt(list, i)] == st.m.next[NodeAt(list, i)];
      }
    }
  }

  /** The keys in the list. */
  ghost function KeysOf(st: State): set<Key>
    requires st.lists != []
  {
    set n | n in st.lists[0] && n < |st.m.keys| :: st.m.keys[n]
  }

  /** `x` is the last node of the level before `key`, or the head; place `a` is where it is. */
  ghost predicate Splits(keys: seq<Key>, list: seq<nat>, key: Key, x: nat) {
    exists a :: SplitsAt(keys, list, key, x, a)
  }

  ghost predicate SplitsAt(keys: seq<Key>, list: seq<nat>, key: Key, x: nat, a: int) {
    && -1 <= a < |list| && NodeAt(list, a) == x
    && (a >= 0 ==> list[a] < |keys| && keys[list[a]] < key)
    && (a + 1 < |list| ==> list[a + 1] < |keys| && key <= keys[list[a + 1]])
  }

  lemma SplitsOn(keys: seq<Key>, keys1: seq<Key>, list: seq<nat>, key: Key, x: nat)
    requires Splits(keys, list, key, x) && |keys| <= |keys1| && forall n :: 0 <= n < |keys| ==> keys1[n] == keys[n]
    ensures Splits(keys1, list, key, x)
  {
    var a :| SplitsAt(keys, list, key, x, a);
    assert SplitsAt(keys1, list, key, x, a);
  }

  class SkipList {
    var m: Memory
    ghost var lists: seq<seq<nat>>
    /** All states since the list was made. */
    ghost var trace: seq<State>

    ghost function Now(): State
      reads this`m, this`lists
    {
      State(m, lists)
    }

    ghost predicate Valid()
      reads this
    {
      trace != [] && Run(trace) && trace[|trace| - 1] == Now()
    }

    constructor ()
      ensures Valid() && |lists| == MAX_HEIGHT && KeysOf(Now()) == {}
    {
      m := Memory([0.0], [Nones(MAX_HEIGHT)], 1);
      lists := [[], [], [], [], [], [], [], [], [], [], [], []];
      trace := [State(Memory([0.0], [Nones(MAX_HEIGHT)], 1), [[], [], [], [], [], [], [], [], [], [], [], []])];
      new;
      EmptyIsValid(Now());
    }

    /** A reader on its own: the first node at or after `key`, and on every level the last node before it. */
    method FindGreaterOrEqual(key: Key) returns (r: Option<nat>, prev: seq<nat>)
      requires Valid()
      ensures Inv(Now()) && IsFirst(Now(), Some(key), r)
      ensures |prev| == MAX_HEIGHT
      ensures forall l :: 0 <= l < m.maxHeight ==> Splits(m.keys, lists[l], key, prev[l])
    {
      hide Inv, Run, Reached, IsFirst, IsLastBefore, Splits, Advance, Stops;
      ghost var st := Now();
      NowIsInv(trace);
      prev := [0, 0, 0, 0, 0, 0, 0, 0, 0, 0, 0, 0];
      var x: nat, level: int := 0, m.maxHeight - 1;
      StartIsReached(st, Some(key), Search(0, level));
      ghost var i := ReachedIsIndex(st, Some(key), Search(0, level));
      while true
        invariant 0 <= level < m.maxHeight && |prev| == MAX_HEIGHT && Reached(st, Some(key), Search(x, level))
        invariant -1 <= i < |lists[level]| && NodeAt(lists[level], i) == x
        invariant forall l :: level < l < m.maxHeight ==> Splits(m.keys, lists[l], key, prev[l])
        decreases level, |lists[level]| - i
      {
        LoadAt(st, Some(key), Search(x, level), i);
        var next := m.next[x][level];
        if next.Some? && m.keys[next.value] < key {
          x := next.value;
          i := i + 1;
        } else {
          SplitHere(st, key, Search(x, level), i);
          prev := prev[level := x];
          if level == 0 {
            StopIsRight(st, Some(key), Search(x, level));
            StopsHere(m, Some(key), Search(x, level));
            return next, prev;
          }
          level := level - 1;
          i := ReachedIsIndex(st, Some(key), Search(x, level));
        }
      }
    }

    /** The last node before `key`, or the head. */
    method FindLessThan(key: Key) returns (x: nat)
      requires Valid()
      ensures Inv(Now()) && IsLastBefore(Now(), Some(key), x)
    {
      hide Inv, Run, Reached, IsFirst, IsLastBefore, Splits, Advance, Stops;
      ghost var st := Now();
      NowIsInv(trace);
      x := 0;
      var level := m.maxHeight - 1;
      StartIsReached(st, Some(key), Search(0, level));
      ghost var i := ReachedIsIndex(st, Some(key), Search(0, level));
      while true
        invariant 0 <= level < m.maxHeight && Reached(st, Some(key), Search(x, level))
        invariant -1 <= i < |lists[level]| && NodeAt(lists[level], i) == x
        decreases level, |lists[level]| - i
      {
        LoadAt(st, Some(key), Search(x, level), i);
        var next := m.next[x][level];
        if next.None? || m.keys[next.value] >= key {
          if level == 0 {
            StopIsRight(st, Some(key), Search(x, level));
            StopsHere(m, Some(key), Search(x, level));
            return;
          }
          level := level - 1;
          i := ReachedIsIndex(st, Some(key), Search(x, level));
        } else {
          x := next.value;
          i := i + 1;
        }
      }
    }

    /** The last node, or the head of an empty list. */
    method FindLast() returns (x: nat)
      requires Valid()
      ensures Inv(Now()) && IsLastBefore(Now(), None, x)
    {
      hide Inv, Run, Reached, IsFirst, IsLastBefore, Splits, Advance, Stops;
      ghost var st := Now();
      NowIsInv(trace);
      x := 0;
      var level := m.maxHeight - 1;
      StartIsReached(st, None, Search(0, level));
      ghost var i := ReachedIsIndex(st, None, Search(0, level));
      while true
        invariant 0 <= level < m.maxHeight && Reached(st, None, Search(x, level))
        invariant -1 <= i < |lists[level]| && NodeAt(lists[level], i) == x
        decreases level, |lists[level]| - i
      {
        LoadAt(st, None, Search(x, level), i);
        var next := m.next[x][level];
        if next.None? {
          if level == 0 {
            StopIsRight(st, None, Search(x, level));
            StopsHere(m, None, Search(x, level));
            return;
          }
          level := level - 1;
          i := ReachedIsIndex(st, None, Search(x, level));
        } else {
          x := next.value;
          i := i + 1;
        }
      }
    }

    method Contains(key: Key) returns (r: bool)
      requires Valid()
      ensures Inv(Now()) && (r <==> key in KeysOf(Now()))
    {
      hide Inv, Run, IsFirst, KeysOf;
      var x, _ := FindGreaterOrEqual(key);
      FirstTellsMembership(Now(), key, x);
      r := x.Some? && m.keys[x.value] == key;
    }

    /** Inserts a key, whatever height is drawn for its node. The trace grows by every single store. */
    method Insert(key: Key, height: nat) returns (ghost x: nat)
      requires Valid() && |lists| == MAX_HEIGHT && key !in KeysOf(Now()) && 1 <= height <= MAX_HEIGHT
      modifies this
      ensures Valid() && |lists| == MAX_HEIGHT && KeysOf(Now()) == KeysOf(old(Now())) + {key}
      ensures old(trace) <= trace
      ensures x == |old(m).keys| && m.keys == old(m).keys + [key]
      ensures forall l, n :: 0 <= l < MAX_HEIGHT ==> (n in lists[l] <==> n in old(lists)[l] || (n == x && l < height))
      ensures m.maxHeight == if height > old(m).maxHeight then height else old(m).maxHeight
    {
      hide Inv, Run, Grows, IsFirst, KeysOf, WithNext, Inserted, After, Splits, SplitsAt, Linking, Nones;
      ghost var st0 := Now();
      var _, prev := FindGreaterOrEqual(key);
      NowIsInv(trace);
      if height > m.maxHeight {
        for i := m.maxHeight to height
          invariant unchanged(this) && |prev| == MAX_HEIGHT
          invariant forall l :: 0 <= l < i ==> Splits(m.keys, lists[l], key, prev[l])
        {
          prev := prev[i := 0];
          EmptyLevelSplits(Now(), key, i);
        }
        StoreMaxHeight(height);
      }
      var node := NewNode(key, height);
      x := node;
      ReadyToLink(st0, Now(), key, prev, height, node);
      LinkLevels(st0, key, prev, height, node);
      AllLinked(Now(), st0, key, prev, height, node);
      LinkedLevels(Now(), st0, key, prev, height, node);
    }

    /** From the lowest level up: the new node's own link, then the link to it. */
    method LinkLevels(ghost st0: State, ghost key: Key, prev: seq<nat>, height: nat, node: nat)
      requires Valid() && 1 <= height <= MAX_HEIGHT == |prev| && Linking(Now(), st0, key, prev, height, node, 0)
      modifies this
      ensures Valid() && |lists| == MAX_HEIGHT && Linking(Now(), st0, key, prev, height, node, height) && old(trace) <= trace
      ensures m.keys == old(m).keys && m.maxHeight == old(m).maxHeight
    {
      hide Inv, Run, Grows, IsFirst, KeysOf, WithNext, Inserted, After, Splits, SplitsAt, Linking, Nones;
      for i := 0 to height
        invariant Valid() && Linking(Now(), st0, key, prev, height, node, i) && old(trace) <= trace
        invariant m.keys == old(m).keys && m.maxHeight == old(m).maxHeight
      {
        NowIsInv(trace);
        ghost var a := PlaceOf(Now(), st0, key, prev, height, node, i);
        OwnLinkStored(Now(), st0, key, prev, height, node, i, a, m.next[prev[i]][i]);
        PlaceIs(m.keys, lists[i], key, prev[i], a);
        StoreOwnNext(node, i, m.next[prev[i]][i]);
        LinkStored(Now(), st0, key, prev, height, node, i, a);
        StorePrevNext(prev[i], i, node, a);
      }
      NowIsInv(trace);
    }

    /** A store of the height. */
    method StoreMaxHeight(height: nat)
      requires Valid() && m.maxHeight <= height <= MAX_HEIGHT
      modifies this
      ensures Valid() && m == old(m).(maxHeight := height) && lists == old(lists) && old(trace) <= trace
    {
      hide Inv, Run, Grows;
      NowIsInv(trace);
      HeightStore(Now(), height);
      RunGrows(trace, State(m.(maxHeight := height), lists));
      m := m.(maxHeight := height);
      trace := trace + [Now()];
    }

    method NewNode(key: Key, height: nat) returns (x: nat)
      requires Valid()
      modifies this
      ensures Valid() && x == |old(m.keys)| == |old(m.next)| > 0 && m == WithNode(old(m), key, height) && lists == old(lists)
      ensures old(trace) <= trace && |lists| == MAX_HEIGHT && forall l :: 0 <= l < MAX_HEIGHT ==> x !in lists[l]
    {
      hide Inv, Run, Grows, WithNode;
      NowIsInv(trace);
      NodeStore(Now(), key, height);
      RunGrows(trace, State(WithNode(m, key, height), lists));
      x := |m.keys|;
      m := WithNode(m, key, height);
      trace := trace + [Now()];
    }

    /** A store to a link of a node that no reader can reach on that level. */
    method StoreOwnNext(x: nat, l: nat, v: Option<nat>)
      requires Valid() && 0 < x < |m.next| && l < |m.next[x]| && l < MAX_HEIGHT == |lists| && x !in lists[l]
      modifies this
      ensures Valid() && m == WithNext(old(m), x, l, v) && lists == old(lists) && old(trace) <= trace
    {
      hide Inv, Run, Grows, WithNext, OneStore;
      NowIsInv(trace);
      OwnStore(Now(), x, l, v);
      OneLink(m, x, l, v);
      RunGrows(trace, State(WithNext(m, x, l, v), lists));
      m := WithNext(m, x, l, v);
      trace := trace + [Now()];
    }

    /** The store that makes a node reachable on a level. */
    method StorePrevNext(p: nat, l: nat, x: nat, ghost a: int)
      requires Valid() && |lists| == MAX_HEIGHT && l < m.maxHeight <= MAX_HEIGHT && -1 <= a < |lists[l]| && p == NodeAt(lists[l], a)
      requires 0 < x < |m.keys| && |m.keys| == |m.next| && l < |m.next[x]|
      requires forall k :: l <= k < MAX_HEIGHT ==> x !in lists[k]
      requires forall k :: 0 <= k < l ==> x in lists[k]
      requires m.next[x][l] == After(lists[l], a)
      requires a >= 0 ==> lists[l][a] < |m.keys| && m.keys[lists[l][a]] < m.keys[x]
      requires a + 1 < |lists[l]| ==> lists[l][a + 1] < |m.keys| && m.keys[x] < m.keys[lists[l][a + 1]]
      modifies this
      ensures p < |old(m).next| && l < |old(m).next[p]|
      ensures Valid() && m == WithNext(old(m), p, l, Some(x)) && lists == old(lists)[l := Inserted(old(lists)[l], a, x)]
      ensures old(trace) <= trace
    {
      hide Inv, Run, Grows, WithNext, OneStore, Inserted, NodeAt, After;
      NowIsInv(trace);
      PublishStore(Now(), l, a, x);
      OneLink(m, p, l, Some(x));
      RunGrows(trace, State(WithNext(m, p, l, Some(x)), lists[l := Inserted(lists[l], a, x)]));
      m := WithNext(m, p, l, Some(x));
      lists := lists[l := Inserted(lists[l], a, x)];
      trace := trace + [Now()];
    }
  }

  /** Node `x` of the new key is on the levels below `i`, and the places for it on the other levels are known. */
  ghost predicate Linking(st: State, st0: State, key: Key, prev: seq<nat>, height: nat, x: nat, i: nat) {
    && |st.lists| == |st0.lists| == |prev| == MAX_HEIGHT && i <= height <= st.m.maxHeight <= MAX_HEIGHT
    && 0 < x < |st.m.keys| == |st.m.next| && st.m.keys[x] == key && |st.m.next[x]| == height
    && (forall l :: i <= l < MAX_HEIGHT ==> st.lists[l] == st0.lists[l] && x !in st.lists[l])
    && (forall l :: 0 <= l < i ==> x in st.lists[l])
    && (forall l, n :: 0 <= l < i && n in st.lists[l] ==> n == x || n in st0.lists[l])
    && (forall l, n :: 0 <= l < i && n in st0.lists[l] ==> n in st.lists[l])
    && (forall l :: i <= l < height ==> Splits(st.m.keys, st.lists[l], key, prev[l]))
    && |st0.m.keys| <= |st.m.keys| && (forall n :: 0 <= n < |st0.m.keys| ==> st.m.keys[n] == st0.m.keys[n])
    && Without(st0, key)
  }

  /** All nodes are of other keys. */
  ghost predicate Without(st: State, key: Key) {
    forall l: nat, n: nat {:trigger n in st.lists[l]} :: l < |st.lists| && n in st.lists[l] ==> IsOther(st, n, key)
  }

  ghost predicate IsOther(st: State, n: nat, key: Key) {
    n < |st.m.keys| && st.m.keys[n] != key
  }

  lemma EmptyLevelSplits(st: State, key: Key, l: nat)
    requires Inv(st) && st.m.maxHeight <= l < MAX_HEIGHT
    ensures Splits(st.m.keys, st.lists[l], key, 0)
  {
    assert SplitsAt(st.m.keys, st.lists[l], key, 0, -1);
  }

  lemma {:induction false} OnLowestLevel(st: State, l: nat, n: nat)
    requires Inv(st) && l < MAX_HEIGHT && n in st.lists[l]
    ensures n in st.lists[0] && n < |st.m.keys|
  {
    if l > 0 {
      var k: nat := l - 1;
      assert n in st.lists[k];
      OnLowestLevel(st, k, n);
    } else {
      assert Chain(st.m, st.lists[0], 0);
    }
  }

  lemma ReadyToLink(st0: State, st: State, key: Key, prev: seq<nat>, height: nat, x: nat)
    requires Inv(st0) && key !in KeysOf(st0) && |prev| == MAX_HEIGHT && 1 <= height <= MAX_HEIGHT
    requires st.lists == st0.lists && x == |st0.m.keys| == |st0.m.next|
    requires st.m.keys == st0.m.keys + [key] && st.m.next == st0.m.next + [Nones(height)] && height <= st.m.maxHeight <= MAX_HEIGHT
    requires x > 0 && forall l :: 0 <= l < MAX_HEIGHT ==> x !in st.lists[l]
    requires forall l :: 0 <= l < height ==> Splits(st0.m.keys, st0.lists[l], key, prev[l])
    ensures Linking(st, st0, key, prev, height, x, 0)
  {
    hide Chain;
    forall l: nat, n: nat | l < MAX_HEIGHT && n in st0.lists[l] ensures IsOther(st0, n, key) {
      OnLowestLevel(st0, l, n);
      assert st0.m.keys[n] in KeysOf(st0);
    }
    forall l | 0 <= l < height ensures Splits(st.m.keys, st.lists[l], key, prev[l]) {
      SplitsOn(st0.m.keys, st.m.keys, st.lists[l], key, prev[l]);
    }
    assert |st.m.next[x]| == height;
  }

  /** The place of the new key on level `i`. */
  lemma PlaceOf(st: State, st0: State, key: Key, prev: seq<nat>, height: nat, x: nat, i: nat) returns (a: int)
    requires Inv(st) && Linking(st, st0, key, prev, height, x, i) && i < height
    ensures SplitsAt(st.m.keys, st.lists[i], key, prev[i], a)
    ensures prev[i] < |st.m.next| && i < |st.m.next[prev[i]]| && st.m.next[prev[i]][i] == After(st.lists[i], a)
    ensures prev[i] != x
    ensures a + 1 < |st.lists[i]| ==> key < st.m.keys[st.lists[i][a + 1]]
  {
    assert Splits(st.m.keys, st.lists[i], key, prev[i]);
    a :| SplitsAt(st.m.keys, st.lists[i], key, prev[i], a);
    ChainAt(st.m, st.lists[i], i, a);
    assert a >= 0 ==> st.lists[i][a] in st.lists[i];
    assert a + 1 < |st.lists[i]| ==> st.lists[i][a + 1] in st0.lists[i];
  }

  /** The new node's own link can be stored, and then everything is as before but for it. */
  lemma OwnLinkStored(st: State, st0: State, key: Key, prev: seq<nat>, height: nat, x: nat, i: nat, a: int, v: Option<nat>)
    requires Linking(st, st0, key, prev, height, x, i) && i < height
    requires prev[i] < |st.m.next| && i < |st.m.next[prev[i]]|
    ensures 0 < x < |st.m.next| && i < |st.m.next[x]| && x !in st.lists[i]
    ensures var m1 := WithNext(st.m, x, i, v);
            && Linking(State(m1, st.lists), st0, key, prev, height, x, i)
            && x < |m1.next| && i < |m1.next[x]| && m1.next[x][i] == v && m1.keys == st.m.keys && m1.maxHeight == st.m.maxHeight
            && prev[i] < |m1.next| && i < |m1.next[prev[i]]|
  {
    hide Splits;
    assert |WithNext(st.m, x, i, v).next[x]| == height;
  }

  lemma PlaceIs(keys: seq<Key>, list: seq<nat>, key: Key, x: nat, a: int)
    requires SplitsAt(keys, list, key, x, a)
    ensures -1 <= a < |list| && x == NodeAt(list, a)
    ensures a >= 0 ==> list[a] < |keys| && keys[list[a]] < key
    ensures a + 1 < |list| ==> list[a + 1] < |keys|
  {
  }

  lemma LinkStored(st: State, st0: State, key: Key, prev: seq<nat>, height: nat, x: nat, i: nat, a: int)
    requires Linking(st, st0, key, prev, height, x, i) && i < height && SplitsAt(st.m.keys, st.lists[i], key, prev[i], a)
    requires prev[i] < |st.m.next| && i < |st.m.next[prev[i]]| && prev[i] != x
    ensures forall k :: i <= k < MAX_HEIGHT ==> x !in st.lists[k]
    ensures forall k :: 0 <= k < i ==> x in st.lists[k]
    ensures 0 < x < |st.m.keys| == |st.m.next| && i < |st.m.next[x]| && i < st.m.maxHeight && st.m.keys[x] == key
    ensures var st1 := State(WithNext(st.m, prev[i], i, Some(x)), st.lists[i := Inserted(st.lists[i], a, x)]);
            Linking(st1, st0, key, prev, height, x, i + 1)
  {
    hide Splits, SplitsAt, Inserted;
    var list := st.lists[i];
    SplitInRange(st.m.keys, list, key, prev[i], a);
    InsertedHas(list, a, x);
  }

  lemma SplitInRange(keys: seq<Key>, list: seq<nat>, key: Key, x: nat, a: int)
    requires SplitsAt(keys, list, key, x, a)
    ensures -1 <= a < |list|
  {
  }

  lemma OldNode(st: State, st0: State, key: Key, prev: seq<nat>, height: nat, x: nat, l: nat, n: nat)
    requires Linking(st, st0, key, prev, height, x, height) && l < height && n in st.lists[l]
    ensures n == x || (n in st0.lists[l] && n < |st0.m.keys| && st0.m.keys[n] == st.m.keys[n])
  {
    hide Splits;
    assert n != x ==> IsOther(st0, n, key);
  }

  lemma AllLinked(st: State, st0: State, key: Key, prev: seq<nat>, height: nat, x: nat)
    requires Linking(st, st0, key, prev, height, x, height) && height >= 1 && st0.lists != [] && st.lists != []
    ensures KeysOf(st) == KeysOf(st0) + {key}
  {
    hide Splits;
    assert x in st.lists[0];
    forall k | k in KeysOf(st0) + {key} ensures k in KeysOf(st) {
      if k == key {
        assert st.m.keys[x] == k;
      } else {
        var n :| n in st0.lists[0] && n < |st0.m.keys| && st0.m.keys[n] == k;
        assert n in st.lists[0];
      }
    }
    forall k | k in KeysOf(st) ensures k in KeysOf(st0) + {key} {
      var n :| n in st.lists[0] && n < |st.m.keys| && st.m.keys[n] == k;
      OldNode(st, st0, key, prev, height, x, 0, n);
    }
  }

  /** The new node is on the levels below its height, and nothing else has changed there. */
  lemma LinkedLevels(st: State, st0: State, key: Key, prev: seq<nat>, height: nat, x: nat)
    requires Linking(st, st0, key, prev, height, x, height)
    ensures forall l, n :: 0 <= l < MAX_HEIGHT ==> (n in st.lists[l] <==> n in st0.lists[l] || (n == x && l < height))
  {
    hide Splits, Without;
  }

  lemma NowIsInv(trace: seq<State>)
    requires Run(trace) && trace != []
    ensures var st := trace[|trace| - 1];
            Inv(st) && |st.lists| == MAX_HEIGHT && 1 <= st.m.maxHeight <= MAX_HEIGHT
  {
  }

  lemma EmptyIsValid(st: State)
    requires st == State(Memory([0.0], [Nones(MAX_HEIGHT)], 1), [[], [], [], [], [], [], [], [], [], [], [], []])
    ensures Run([st])
  {
    GrowsItself(st);
    forall l | 0 <= l < MAX_HEIGHT ensures Chain(st.m, st.lists[l], l) {
      assert st.lists[l] == [];
    }
  }

  /** The link a search loads is its level's. */
  lemma LoadAt(st: State, target: Option<Key>, s: Search, i: int)
    requires Inv(st) && Reached(st, target, s) && -1 <= i < |st.lists[s.level]| && NodeAt(st.lists[s.level], i) == s.x
    ensures s.x < |st.m.next| && s.level < |st.m.next[s.x]| && Load(st.m, s) == After(st.lists[s.level], i)
    ensures Load(st.m, s).Some? ==> Load(st.m, s).value < |st.m.keys|
    ensures Load(st.m, s).Some? && Before(st.m.keys[Load(st.m, s).value], target) ==> Reached(st, target, Search(Load(st.m, s).value, s.level))
    ensures s.level > 0 ==> Reached(st, target, Search(s.x, s.level - 1))
  {
    assert Chain(st.m, st.lists[s.level], s.level);
    assert st.m.next[NodeAt(st.lists[s.level], i)][s.level] == After(st.lists[s.level], i);
    assert i + 1 < |st.lists[s.level]| ==> st.lists[s.level][i + 1] in st.lists[s.level];
    var l: int := s.level - 1;
    assert s.level > 0 && s.x != 0 ==> s.x in st.lists[l];
  }

  lemma StopsHere(m: Memory, target: Option<Key>, s: Search)
    requires s.x < |m.next| && s.level < |m.next[s.x]| && (Load(m, s).Some? ==> Load(m, s).value < |m.keys|)
    requires s.level == 0 && (Load(m, s).Some? ==> !Before(m.keys[Load(m, s).value], target))
    ensures Stops(m, target, s)
  {
  }

  lemma SplitHere(st: State, key: Key, s: Search, i: int)
    requires Inv(st) && Reached(st, Some(key), s) && -1 <= i < |st.lists[s.level]| && NodeAt(st.lists[s.level], i) == s.x
    requires After(st.lists[s.level], i).Some? ==> After(st.lists[s.level], i).value < |st.m.keys|
                                                   && st.m.keys[After(st.lists[s.level], i).value] >= key
    ensures Splits(st.m.keys, st.lists[s.level], key, s.x)
  {
    assert Chain(st.m, st.lists[s.level], s.level);
    assert SplitsAt(st.m.keys, st.lists[s.level], key, s.x, i);
  }

  lemma FirstTellsMembership(st: State, key: Key, r: Option<nat>)
    requires Inv(st) && IsFirst(st, Some(key), r)
    ensures r.Some? ==> r.value < |st.m.keys|
    ensures key in KeysOf(st) <==> r.Some? && st.m.keys[r.value] == key
  {
  }

  /** The node is the first one after `key`, if there is one. */
  ghost predicate IsNext(st: State, key: Key, r: Option<nat>)
    requires Inv(st)
  {
    && (r.Some? ==> r.value in st.lists[0] && r.value < |st.m.keys| && key < st.m.keys[r.value])
    && (forall n :: n in st.lists[0] && n < |st.m.keys| ==>
          (st.m.keys[n] <= key || (r.Some? && st.m.keys[r.value] <= st.m.keys[n])))
  }

  lemma LinkIsNext(st: State, x: nat)
    requires Inv(st) && x in st.lists[0]
    ensures x < |st.m.keys| && x < |st.m.next| && 0 < |st.m.next[x]| && IsNext(st, st.m.keys[x], st.m.next[x][0])
  {
    var list := st.lists[0];
    var i :| 0 <= i < |list| && list[i] == x;
    assert Chain(st.m, list, 0);
    ChainAt(st.m, list, 0, i);
    forall n | n in list && n < |st.m.keys|
      ensures st.m.keys[n] <= st.m.keys[x] || (i + 1 < |list| && st.m.keys[list[i + 1]] <= st.m.keys[n])
    {
      var j :| 0 <= j < |list| && list[j] == n;
      if j < i {
        assert st.m.keys[list[j]] < st.m.keys[list[i]];
      } else if j > i + 1 {
        assert st.m.keys[list[i + 1]] < st.m.keys[list[j]];
      }
    }
  }

  lemma HeadIsFirst(st: State)
    requires Inv(st)
    ensures 0 < |st.m.next| && 0 < |st.m.next[0]|
    ensures if st.lists[0] == [] then st.m.next[0][0].None?
            else st.m.next[0][0] == Some(st.lists[0][0]) && forall n :: n in st.lists[0] && n < |st.m.keys| ==>
                                                                        st.m.keys[st.lists[0][0]] <= st.m.keys[n]
  {
    var list := st.lists[0];
    assert Chain(st.m, list, 0);
    ChainAt(st.m, list, 0, -1);
    forall n | n in list ensures st.m.keys[list[0]] <= st.m.keys[n] {
      var j :| 0 <= j < |list| && list[j] == n;
      assert j == 0 || st.m.keys[list[0]] < st.m.keys[list[j]];
    }
  }

  class Iterator {
    const list: SkipList
    var node: Option<nat>

    /** On a node of the lowest level, or on none. */
    ghost predicate Valid()
      reads this, list
    {
      list.Valid() && |list.lists| == MAX_HEIGHT && (node.Some? ==> node.value in list.lists[0])
    }

    constructor (list: SkipList)
      requires list.Valid() && |list.lists| == MAX_HEIGHT
      ensures Valid() && node.None? && this.list == list
    {
      this.list, node := list, None;
    }

    method Next()
      requires Valid() && node.Some?
      modifies this
      ensures Valid() && Inv(list.Now()) && old(node.value) < |list.m.keys|
      ensures IsNext(list.Now(), list.m.keys[old(node.value)], node)
    {
      hide Run, IsNext;
      NowIsInv(list.trace);
      LinkIsNext(list.Now(), node.value);
      NextIsOn(list.Now(), list.m.keys[node.value], list.m.next[node.value][0]);
      node := list.m.next[node.value][0];
    }

    /** There are no links backwards: the last node before the current key is searched for. */
    method Prev()
      requires Valid() && node.Some?
      modifies this
      ensures Valid() && Inv(list.Now()) && old(node.value) < |list.m.keys|
      ensures IsLastBefore(list.Now(), Some(list.m.keys[old(node.value)]), if node.Some? then node.value else 0)
    {
      hide Run, IsLastBefore, Inv;
      NowIsInv(list.trace);
      OnLowestLevel(list.Now(), 0, node.value);
      var x := list.FindLessThan(list.m.keys[node.value]);
      LastIsOn(list.Now(), Some(list.m.keys[node.value]), x);
      node := if x == 0 then None else Some(x);
    }

    method Seek(target: Key)
      requires Valid()
      modifies this
      ensures Valid() && Inv(list.Now()) && IsFirst(list.Now(), Some(target), node)
    {
      hide Run, Inv, IsFirst;
      var r, _ := list.FindGreaterOrEqual(target);
      FirstIsOn(list.Now(), Some(target), r);
      node := r;
    }

    method SeekToFirst()
      requires Valid()
      modifies this
      ensures Valid() && node == if list.lists[0] == [] then None else Some(list.lists[0][0])
    {
      hide Run, Inv;
      NowIsInv(list.trace);
      HeadIsFirst(list.Now());
      node := list.m.next[0][0];
    }

    method SeekToLast()
      requires Valid()
      modifies this
      ensures Valid() && Inv(list.Now()) && IsLastBefore(list.Now(), None, if node.Some? then node.value else 0)
    {
      hide Run, IsLastBefore, Inv;
      var x := list.FindLast();
      LastIsOn(list.Now(), None, x);
      node := if x == 0 then None else Some(x);
    }
  }

  lemma NextIsOn(st: State, key: Key, r: Option<nat>)
    requires Inv(st) && IsNext(st, key, r)
    ensures r.Some? ==> r.value in st.lists[0] && r.value < |st.m.keys|
  {
  }

  lemma FirstIsOn(st: State, target: Option<Key>, r: Option<nat>)
    requires Inv(st) && IsFirst(st, target, r)
    ensures r.Some? ==> r.value in st.lists[0]
  {
  }

  lemma LastIsOn(st: State, target: Option<Key>, x: nat)
    requires Inv(st) && IsLastBefore(st, target, x)
    ensures x != 0 ==> x in st.lists[0]
  {
  }
}
