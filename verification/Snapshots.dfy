/** The list of live snapshots (db/snapshot.h): a circular list through its nodes, oldest first. */
module Snapshots {
  import opened Rings

  const HEAD: nat := 0

  ghost predicate Sorted(numbers: map<nat, nat>, list: seq<nat>) {
    forall i, j :: 0 <= i < j < |list| && list[i] in numbers && list[j] in numbers ==> numbers[list[i]] <= numbers[list[j]]
  }

  /** The links are a ring through just the live snapshots, in the order of their sequence numbers. */
  ghost predicate ListOk(next: map<nat, nat>, prev: map<nat, nat>, numbers: map<nat, nat>, nextId: nat, list: seq<nat>) {
    && Ring(next, prev, HEAD, list) && NoDups(list) && HEAD !in list
    && (forall n :: n in list <==> n in numbers)
    && (forall n :: n in numbers ==> n < nextId) && nextId > 0
    && Sorted(numbers, list)
  }

  lemma ListNew(next: map<nat, nat>, prev: map<nat, nat>, numbers: map<nat, nat>, e: nat, list: seq<nat>, number: nat)
    requires ListOk(next, prev, numbers, e, list)
    requires forall n :: n in numbers ==> numbers[n] <= number
    ensures HEAD in prev
    ensures ListOk(next[e := HEAD][prev[HEAD] := e], prev[e := prev[HEAD]][HEAD := e], numbers[e := number], e + 1, list + [e])
  {
    hide Ring, NoDups;
    RingAppend(next, prev, HEAD, list, e);
    NoDupsGrow(list, e);
  }

  lemma ListDelete(next: map<nat, nat>, prev: map<nat, nat>, numbers: map<nat, nat>, nextId: nat, list: seq<nat>, e: nat)
    requires ListOk(next, prev, numbers, nextId, list) && e in numbers
    ensures e in next && e in prev
    ensures ListOk(next[prev[e] := next[e]], prev[next[e] := prev[e]], numbers - {e}, nextId, Without(list, e))
  {
    hide Ring, NoDups, Without, Sorted;
    var k :| 0 <= k < |list| && list[k] == e;
    RingRemove(next, prev, HEAD, list, k);
    WithoutIs(list, e, k);
    WithoutHas(list, e);
    SortedWithout(numbers, list, k);
  }

  lemma SortedWithout(numbers: map<nat, nat>, list: seq<nat>, k: nat)
    requires Sorted(numbers, list) && k < |list|
    ensures Sorted(numbers - {list[k]}, list[..k] + list[k + 1..])
  {
    var less := list[..k] + list[k + 1..];
    assert forall i :: 0 <= i < |less| ==> less[i] == list[if i < k then i else i + 1];
  }

  /** The first and the last place of the ring. */
  lemma ListEnds(next: map<nat, nat>, prev: map<nat, nat>, numbers: map<nat, nat>, nextId: nat, list: seq<nat>)
    requires ListOk(next, prev, numbers, nextId, list)
    ensures HEAD in next && HEAD in prev && (next[HEAD] == HEAD <==> list == [])
    ensures list == [] <==> numbers == map[]
    ensures list != [] ==> next[HEAD] == list[0] && prev[HEAD] == list[|list| - 1]
    ensures list != [] ==> list[0] in numbers && list[|list| - 1] in numbers
    ensures list != [] ==> forall n :: n in numbers ==> numbers[list[0]] <= numbers[n] <= numbers[list[|list| - 1]]
  {
    assert LinkedAt(next, prev, At(HEAD, list, -1), At(HEAD, list, 0));
    assert LinkedAt(next, prev, At(HEAD, list, |list| - 1), At(HEAD, list, |list|));
    if list == [] {
      assert numbers.Keys == {};
    } else {
      assert list[0] in list;
      forall n | n in numbers ensures numbers[list[0]] <= numbers[n] <= numbers[list[|list| - 1]] {
        assert n in list;
        var k :| 0 <= k < |list| && list[k] == n;
      }
    }
  }

  class SnapshotList {
    var next: map<nat, nat>
    var prev: map<nat, nat>
    /** The sequence number of every live snapshot. */
    var numbers: map<nat, nat>
    var nextId: nat
    ghost var list: seq<nat>

    ghost predicate Valid()
      reads this
    {
      ListOk(next, prev, numbers, nextId, list)
    }

    constructor ()
      ensures Valid() && list == [] && numbers == map[]
    {
      next, prev, numbers, nextId, list := map[HEAD := HEAD], map[HEAD := HEAD], map[], 1, [];
    }

    method Empty() returns (empty: bool)
      requires Valid()
      ensures empty <==> numbers == map[]
    {
      ListEnds(next, prev, numbers, nextId, list);
      empty := next[HEAD] == HEAD;
    }

    /** The smallest sequence number that any live snapshot has, which is what a compaction must respect. */
    method Oldest() returns (s: nat)
      requires Valid() && numbers != map[]
      ensures s in numbers && forall n :: n in numbers ==> numbers[s] <= numbers[n]
      ensures list != [] && s == list[0]
    {
      ListEnds(next, prev, numbers, nextId, list);
      s := next[HEAD];
    }

    method Newest() returns (s: nat)
      requires Valid() && numbers != map[]
      ensures s in numbers && forall n :: n in numbers ==> numbers[n] <= numbers[s]
      ensures list != [] && s == list[|list| - 1]
    {
      ListEnds(next, prev, numbers, nextId, list);
      s := prev[HEAD];
    }

    method New(number: nat) returns (s: nat)
      requires Valid() && forall n :: n in numbers ==> numbers[n] <= number
      modifies this
      ensures Valid() && s !in old(numbers) && numbers == old(numbers)[s := number] && list == old(list) + [s]
    {
      hide ListOk;
      s := nextId;
      ListNew(next, prev, numbers, s, list, number);
      FreshId(next, prev, numbers, nextId, list);
      var last := prev[HEAD];
      next := next[s := HEAD];
      prev := prev[s := last];
      next := next[last := s];
      prev := prev[HEAD := s];
      numbers, nextId, list := numbers[s := number], s + 1, list + [s];
    }

    method Delete(s: nat)
      requires Valid() && s in numbers
      modifies this
      ensures Valid() && numbers == old(numbers) - {s} && list == Without(old(list), s)
    {
      hide ListOk;
      ListDelete(next, prev, numbers, nextId, list, s);
      next := next[prev[s] := next[s]];
      DeleteTwoStores(old(next), old(prev), numbers, nextId, list, s);
      prev := prev[next[s] := prev[s]];
      numbers, list := numbers - {s}, Without(list, s);
    }
  }

  lemma FreshId(next: map<nat, nat>, prev: map<nat, nat>, numbers: map<nat, nat>, nextId: nat, list: seq<nat>)
    requires ListOk(next, prev, numbers, nextId, list)
    ensures nextId !in numbers
  {
  }

  /** The first of the two stores does not touch the node's own link. */
  lemma DeleteTwoStores(next: map<nat, nat>, prev: map<nat, nat>, numbers: map<nat, nat>, nextId: nat, list: seq<nat>, e: nat)
    requires ListOk(next, prev, numbers, nextId, list) && e in numbers
    ensures e in next && e in prev && prev[e] != e
  {
    ListDelete(next, prev, numbers, nextId, list, e);
    var k :| 0 <= k < |list| && list[k] == e;
    assert LinkedAt(next, prev, At(HEAD, list, k - 1), At(HEAD, list, k));
    PlacesDiffer(HEAD, list, k - 1, k);
  }
}
