/** Circular doubly linked lists, as the cache, the versions and the snapshots use them: the links, and
    the sequence of nodes they lead through. */
module Rings {

  /** Place `i` of a circular list; both ends are its head. */
  function At(head: nat, list: seq<nat>, i: int): nat
    requires -1 <= i <= |list|
  {
    if i == -1 || i == |list| then head else list[i]
  }

  ghost predicate LinkedAt(next: map<nat, nat>, prev: map<nat, nat>, a: nat, b: nat) {
    a in next && next[a] == b && b in prev && prev[b] == a
  }

  /** The links lead around through exactly the nodes of `list` and back to its head. */
  ghost predicate Ring(next: map<nat, nat>, prev: map<nat, nat>, head: nat, list: seq<nat>) {
    forall i, j :: -1 <= i < |list| && j == i + 1 ==> LinkedAt(next, prev, At(head, list, i), At(head, list, j))
  }

  ghost predicate NoDups(list: seq<nat>) {
    forall i, j :: 0 <= i < j < |list| ==> list[i] != list[j]
  }

  function Without(list: seq<nat>, e: nat): seq<nat> {
    if list == [] then [] else if list[0] == e then list[1..] else [list[0]] + Without(list[1..], e)
  }

  lemma {:induction false} WithoutIs(list: seq<nat>, e: nat, i: nat)
    requires i < |list| && list[i] == e && NoDups(list)
    ensures Without(list, e) == list[..i] + list[i + 1..]
  {
    if i > 0 {
      assert list[0] != list[i];
      WithoutIs(list[1..], e, i - 1);
      assert list[..i] == [list[0]] + list[1..][..i - 1];
    }
  }

  lemma {:induction false} WithoutHas(list: seq<nat>, e: nat)
    requires NoDups(list)
    ensures NoDups(Without(list, e)) && forall n :: n in Without(list, e) <==> n in list && n != e
  {
    if list != [] {
      WithoutHas(list[1..], e);
      assert forall i :: 1 <= i < |list| ==> list[i] != list[0] && list[i] in list[1..];
      assert forall n :: n in list <==> n == list[0] || n in list[1..];
      assert list[0] !in list[1..];
    }
  }

  lemma {:induction false} WithoutNone(list: seq<nat>, e: nat)
    requires e !in list
    ensures Without(list, e) == list
  {
    if list != [] {
      assert list[0] in list;
      WithoutNone(list[1..], e);
    }
  }

  /** A ring whose nodes' links do not change stays. */
  lemma RingFrame(next: map<nat, nat>, prev: map<nat, nat>, next1: map<nat, nat>, prev1: map<nat, nat>, head: nat, list: seq<nat>)
    requires Ring(next, prev, head, list)
    requires forall n :: (n == head || n in list) && n in next ==> n in next1 && next1[n] == next[n]
    requires forall n :: (n == head || n in list) && n in prev ==> n in prev1 && prev1[n] == prev[n]
    ensures Ring(next1, prev1, head, list)
  {
    forall i, j | -1 <= i < |list| && j == i + 1 ensures LinkedAt(next1, prev1, At(head, list, i), At(head, list, j)) {
      assert LinkedAt(next, prev, At(head, list, i), At(head, list, j));
      assert At(head, list, i) == head || At(head, list, i) in list;
      assert At(head, list, j) == head || At(head, list, j) in list;
    }
  }

  /** Taking a node out of its ring. */
  lemma RingRemove(next: map<nat, nat>, prev: map<nat, nat>, head: nat, list: seq<nat>, k: nat)
    requires Ring(next, prev, head, list) && NoDups(list) && head !in list && k < |list|
    ensures list[k] in next && list[k] in prev
    ensures var e := list[k];
            && prev[e] == At(head, list, k - 1) && next[e] == At(head, list, k + 1)
            && Ring(next[prev[e] := next[e]], prev[next[e] := prev[e]], head, list[..k] + list[k + 1..])
  {
    var e := list[k];
    assert LinkedAt(next, prev, At(head, list, k - 1), At(head, list, k));
    assert LinkedAt(next, prev, At(head, list, k), At(head, list, k + 1));
    var list1 := list[..k] + list[k + 1..];
    var next1, prev1 := next[prev[e] := next[e]], prev[next[e] := prev[e]];
    forall i, j | -1 <= i < |list1| && j == i + 1 ensures LinkedAt(next1, prev1, At(head, list1, i), At(head, list1, j)) {
      if i == k - 1 {
        assert At(head, list1, i) == At(head, list, k - 1) && At(head, list1, j) == At(head, list, k + 1);
      } else {
        var i0: int := if i < k then i else i + 1;
        assert At(head, list1, i) == At(head, list, i0) && At(head, list1, j) == At(head, list, i0 + 1);
        assert LinkedAt(next, prev, At(head, list, i0), At(head, list, i0 + 1));
        PlacesDiffer(head, list, i0, k - 1);
        PlacesDiffer(head, list, i0 + 1, k + 1);
      }
    }
  }

  /** Different places of a ring hold different nodes, but for the two ends. */
  lemma PlacesDiffer(head: nat, list: seq<nat>, i: int, j: int)
    requires NoDups(list) && head !in list && -1 <= i <= |list| && -1 <= j <= |list| && i != j
    requires !(i == -1 && j == |list|) && !(i == |list| && j == -1)
    ensures At(head, list, i) != At(head, list, j)
  {
    assert 0 <= i < |list| ==> list[i] in list;
    assert 0 <= j < |list| ==> list[j] in list;
  }

  /** Putting a node in before the head: it becomes the newest. */
  lemma RingAppend(next: map<nat, nat>, prev: map<nat, nat>, head: nat, list: seq<nat>, e: nat)
    requires Ring(next, prev, head, list) && NoDups(list) && head !in list && e !in list && e != head
    ensures head in prev && prev[head] == At(head, list, |list| - 1)
    ensures Ring(next[e := head][prev[head] := e], prev[e := prev[head]][head := e], head, list + [e])
  {
    var last: int := |list| - 1;
    assert LinkedAt(next, prev, At(head, list, last), At(head, list, last + 1));
    var list1 := list + [e];
    var next1, prev1 := next[e := head][prev[head] := e], prev[e := prev[head]][head := e];
    assert At(head, list, last) != e by {
      assert last >= 0 ==> list[last] in list;
    }
    forall i, j | -1 <= i < |list1| && j == i + 1 ensures LinkedAt(next1, prev1, At(head, list1, i), At(head, list1, j)) {
      if i < last {
        assert At(head, list1, i) == At(head, list, i) && At(head, list1, j) == At(head, list, j);
        assert LinkedAt(next, prev, At(head, list, i), At(head, list, j));
        PlacesDiffer(head, list, i, last);
        assert list[j] in list;
        assert i >= 0 ==> list[i] in list;
      } else if i == last {
        assert At(head, list1, i) == At(head, list, last) && At(head, list1, j) == e;
      } else {
        assert At(head, list1, i) == e && At(head, list1, j) == head;
      }
    }
  }

  lemma PlaceInList(head: nat, list: seq<nat>, i: int)
    requires -1 <= i <= |list|
    ensures At(head, list, i) == head || At(head, list, i) in list
  {
  }

  lemma NoDupsGrow(list: seq<nat>, e: nat)
    requires NoDups(list) && e !in list
    ensures NoDups(list + [e])
  {
  }
}
