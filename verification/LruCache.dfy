/** The cache with least-recently-used eviction (util/cache.cc): reference counts, two circular lists
    threaded through the handles, and a hash table. */
module LruCache {
  import opened Keys
  import opened HandleTable
  import opened Rings

  /** A cache entry. Handles are numbered from 2 on; 0 and 1 are the heads of the two lists. */
  datatype Handle = Handle(key: Bytes, charge: nat, refs: nat, inCache: bool)

  const LRU: nat := 0
  const IN_USE: nat := 1

  /** Both lists are rings, and no node is on two places. */
  ghost predicate ListsOk(next: map<nat, nat>, prev: map<nat, nat>, lru: seq<nat>, inUse: seq<nat>) {
    && Ring(next, prev, LRU, lru) && Ring(next, prev, IN_USE, inUse)
    && NoDups(lru) && NoDups(inUse)
    && (forall n :: n in lru ==> n >= 2 && n !in inUse)
    && (forall n :: n in inUse ==> n >= 2)
  }

  /** The links after a node left one of the lists. */
  lemma ListsRemove(next: map<nat, nat>, prev: map<nat, nat>, lru: seq<nat>, inUse: seq<nat>, e: nat)
    requires ListsOk(next, prev, lru, inUse) && (e in lru || e in inUse)
    ensures e in next && e in prev
    ensures ListsOk(next[prev[e] := next[e]], prev[next[e] := prev[e]], Without(lru, e), Without(inUse, e))
  {
    hide Ring, NoDups, Without;
    var head := if e in lru then LRU else IN_USE;
    var list, other := if e in lru then lru else inUse, if e in lru then inUse else lru;
    var k :| 0 <= k < |list| && list[k] == e;
    RingRemove(next, prev, head, list, k);
    WithoutIs(list, e, k);
    WithoutHas(list, e);
    WithoutNone(other, e);
    PlaceInList(head, list, k - 1);
    PlaceInList(head, list, k + 1);
    RingFrame(next, prev, next[prev[e] := next[e]], prev[next[e] := prev[e]], 1 - head, other);
  }

  lemma ListsAppend(next: map<nat, nat>, prev: map<nat, nat>, lru: seq<nat>, inUse: seq<nat>, head: nat, e: nat)
    requires ListsOk(next, prev, lru, inUse) && e >= 2 && e !in lru && e !in inUse && head <= 1
    ensures head in prev
    ensures ListsOk(next[e := head][prev[head] := e], prev[e := prev[head]][head := e],
                    if head == LRU then lru + [e] else lru, if head == LRU then inUse else inUse + [e])
  {
    hide Ring, NoDups;
    var list, other := if head == LRU then lru else inUse, if head == LRU then inUse else lru;
    RingAppend(next, prev, head, list, e);
    PlaceInList(head, list, |list| - 1);
    RingFrame(next, prev, next[e := head][prev[head] := e], prev[e := prev[head]][head := e], 1 - head, other);
    NoDupsGrow(list, e);
  }

  /** References are the clients' handles and the cache's own; what nobody refers to is gone. Of the
      entries in the cache, exactly those in use are on the in-use list and the others on the LRU list. */
  ghost predicate HandlesOk(handles: map<nat, Handle>, clients: multiset<nat>, lru: seq<nat>, inUse: seq<nat>) {
    RefsOk(handles, clients) && PlacesOk(handles, lru, inUse)
  }

  ghost predicate RefsOk(handles: map<nat, Handle>, clients: multiset<nat>) {
    && (forall h :: h in handles ==> handles[h].refs == clients[h] + (if handles[h].inCache then 1 else 0) && handles[h].refs >= 1)
    && (forall h :: h in clients ==> h in handles)
  }

  ghost predicate PlacesOk(handles: map<nat, Handle>, lru: seq<nat>, inUse: seq<nat>) {
    && (forall h :: h in lru <==> h in handles && handles[h].inCache && handles[h].refs == 1)
    && (forall h :: h in inUse <==> h in handles && handles[h].inCache && handles[h].refs >= 2)
  }

  /** The table has exactly the entries in the cache, apart from `except`, which has just lost its place. */
  ghost predicate TableOk(handles: map<nat, Handle>, contents: map<Bytes, nat>, except: Option<nat>) {
    && (forall key :: key in contents ==>
          && contents[key] in handles && Some(contents[key]) != except
          && handles[contents[key]].key == key && handles[contents[key]].inCache)
    && (forall h :: h in handles && handles[h].inCache && Some(h) != except ==>
          handles[h].key in contents && contents[handles[h].key] == h)
  }

  /** Every handle ever made is still there or was destroyed, once. */
  ghost predicate IdsOk(handles: map<nat, Handle>, destroyed: seq<nat>, nextId: nat) {
    && NoDups(destroyed)
    && (forall h :: h in handles ==> 2 <= h < nextId && h !in destroyed)
    && (forall h :: h in destroyed ==> 2 <= h < nextId)
    && (forall h :: 2 <= h < nextId ==> h in handles || h in destroyed)
  }

  ghost function Charges(handles: map<nat, Handle>, list: seq<nat>): nat
    requires forall h :: h in list ==> h in handles
  {
    if list == [] then 0 else handles[list[0]].charge + Charges(handles, list[1..])
  }

  lemma {:induction false} ChargesSame(handles: map<nat, Handle>, handles1: map<nat, Handle>, list: seq<nat>)
    requires forall h :: h in list ==> h in handles && h in handles1 && handles1[h].charge == handles[h].charge
    ensures Charges(handles1, list) == Charges(handles, list)
  {
    if list != [] {
      ChargesSame(handles, handles1, list[1..]);
    }
  }

  lemma {:induction false} ChargesWithout(handles: map<nat, Handle>, list: seq<nat>, e: nat)
    requires (forall h :: h in list ==> h in handles) && e in list && NoDups(list)
    ensures (forall h :: h in Without(list, e) ==> h in handles)
    ensures Charges(handles, Without(list, e)) + handles[e].charge == Charges(handles, list)
  {
    WithoutHas(list, e);
    if list[0] != e {
      ChargesWithout(handles, list[1..], e);
      assert Without(list, e)[1..] == Without(list[1..], e);
    }
  }

  lemma {:induction false} ChargesAppend(handles: map<nat, Handle>, list: seq<nat>, e: nat)
    requires (forall h :: h in list ==> h in handles) && e in handles
    ensures Charges(handles, list + [e]) == Charges(handles, list) + handles[e].charge
    ensures Charges(handles, []) == 0
  {
    if list == [] {
      assert (list + [e])[1..] == [];
    } else {
      ChargesAppend(handles, list[1..], e);
      assert (list + [e])[1..] == list[1..] + [e];
    }
  }

  /** The charge of everything in the cache. */
  ghost predicate UsageIs(handles: map<nat, Handle>, lru: seq<nat>, inUse: seq<nat>, usage: nat) {
    && (forall h :: h in lru || h in inUse ==> h in handles)
    && usage == Charges(handles, lru) + Charges(handles, inUse)
  }

  class LRUCache {
    const capacity: nat
    const table: HandleTable
    var usage: nat
    var handles: map<nat, Handle>
    var nextId: nat
    var next: map<nat, nat>
    var prev: map<nat, nat>
    /** Handles whose deleter was called. */
    var destroyed: seq<nat>
    /** The two lists, oldest entry first, and the handles that clients hold. */
    ghost var lru: seq<nat>
    ghost var inUse: seq<nat>
    ghost var clients: multiset<nat>

    ghost predicate Consistent(except: Option<nat>)
      reads this, table
    {
      && table.Valid()
      && ListsOk(next, prev, lru, inUse)
      && HandlesOk(handles, clients, lru, inUse)
      && TableOk(handles, table.contents, except)
      && UsageIs(handles, lru, inUse, usage)
      && IdsOk(handles, destroyed, nextId)
      && nextId >= 2
    }

    ghost predicate Valid()
      reads this, table
    {
      Consistent(None)
    }

    constructor (capacity: nat, hashOf: Bytes -> nat)
      ensures Valid() && fresh(table) && this.capacity == capacity && handles == map[] && destroyed == []
    {
      this.capacity := capacity;
      table := new HandleTable(hashOf);
      usage, handles, nextId, destroyed := 0, map[], 2, [];
      next, prev := map[LRU := LRU, IN_USE := IN_USE], map[LRU := LRU, IN_USE := IN_USE];
      lru, inUse, clients := [], [], multiset{};
    }

    method LRURemove(e: nat)
      requires ListsOk(next, prev, lru, inUse) && (e in lru || e in inUse)
      modifies this`next, this`prev, this`lru, this`inUse
      ensures ListsOk(next, prev, lru, inUse)
      ensures lru == Without(old(lru), e) && inUse == Without(old(inUse), e)
    {
      hide ListsOk;
      ListsRemove(next, prev, lru, inUse, e);
      var n, p := next[e], prev[e];
      prev := prev[n := p];
      next := next[p := n];
      lru, inUse := Without(lru, e), Without(inUse, e);
    }

    method LRUAppend(list: nat, e: nat)
      requires ListsOk(next, prev, lru, inUse) && e >= 2 && e !in lru && e !in inUse && list <= 1
      modifies this`next, this`prev, this`lru, this`inUse
      ensures ListsOk(next, prev, lru, inUse)
      ensures lru == (if list == LRU then old(lru) + [e] else old(lru))
      ensures inUse == if list == LRU then old(inUse) else old(inUse) + [e]
    {
      hide ListsOk;
      ListsAppend(next, prev, lru, inUse, list, e);
      var p := prev[list];
      next := next[e := list];
      prev := prev[e := p];
      next := next[p := e];
      prev := prev[list := e];
      if list == LRU {
        lru := lru + [e];
      } else {
        inUse := inUse + [e];
      }
    }

    method Ref(e: nat)
      requires ListsOk(next, prev, lru, inUse) && e in handles && e >= 2
      requires handles[e].refs == 1 && handles[e].inCache ==> e in lru
      modifies this`next, this`prev, this`lru, this`inUse, this`handles
      ensures ListsOk(next, prev, lru, inUse)
      ensures handles == old(handles)[e := old(handles)[e].(refs := old(handles)[e].refs + 1)]
      ensures var move := old(handles)[e].refs == 1 && old(handles)[e].inCache;
              && lru == (if move then Without(old(lru), e) else old(lru))
              && inUse == (if move then old(inUse) + [e] else old(inUse))
    {
      hide ListsOk, Without, NoDups;
      if handles[e].refs == 1 && handles[e].inCache {
        ListMembers(next, prev, lru, inUse, e);
        LRURemove(e);
        LRUAppend(IN_USE, e);
      }
      handles := handles[e := handles[e].(refs := handles[e].refs + 1)];
    }

    method Unref(e: nat)
      requires ListsOk(next, prev, lru, inUse) && e in handles && e >= 2 && handles[e].refs >= 1
      requires handles[e].refs == 1 ==> !handles[e].inCache
      requires handles[e].refs == 2 && handles[e].inCache ==> e in inUse
      modifies this`next, this`prev, this`lru, this`inUse, this`handles, this`destroyed
      ensures ListsOk(next, prev, lru, inUse)
      ensures var h := old(handles)[e];
              && handles == (if h.refs == 1 then old(handles) - {e} else old(handles)[e := h.(refs := h.refs - 1)])
              && destroyed == (if h.refs == 1 then old(destroyed) + [e] else old(destroyed))
              && lru == (if h.refs == 2 && h.inCache then old(lru) + [e] else old(lru))
              && inUse == (if h.refs == 2 && h.inCache then Without(old(inUse), e) else old(inUse))
    {
      hide ListsOk, Without, NoDups;
      handles := handles[e := handles[e].(refs := handles[e].refs - 1)];
      if handles[e].refs == 0 {
        destroyed := destroyed + [e];
        handles := handles - {e};
        assert handles == old(handles) - {e};
      } else if handles[e].inCache && handles[e].refs == 1 {
        ListMembers(next, prev, lru, inUse, e);
        LRURemove(e);
        LRUAppend(LRU, e);
      }
    }

    /** A client gets the entry of a key, and with it a reference. */
    method Lookup(key: Bytes) returns (r: Option<nat>)
      requires Valid()
      modifies this
      ensures Valid() && table.contents == old(table.contents)
      ensures r == if key in table.contents then Some(table.contents[key]) else None
      ensures clients == if r.Some? then old(clients) + multiset{r.value} else old(clients)
      ensures destroyed == old(destroyed) && usage == old(usage)
      ensures r.Some? ==> r.value in old(handles) && old(handles)[r.value].key == key
                          && handles == old(handles)[r.value := old(handles)[r.value].(refs := old(handles)[r.value].refs + 1)]
                          && lru == Without(old(lru), r.value)
      ensures r.None? ==> handles == old(handles) && lru == old(lru)
    {
      hide ListsOk, HandlesOk, UsageIs, IdsOk, TableOk, Without, NoDups;
      r := table.Lookup(key);
      if r.Some? {
        var e := r.value;
        TableLookup(handles, table.contents, key);
        InCacheFacts(handles, clients, lru, inUse, destroyed, nextId, e);
        RefKeeps(handles, clients, lru, inUse, usage, next, prev, e);
        IdsSame(handles, destroyed, nextId, e, handles[e].(refs := handles[e].refs + 1));
        TableSame(handles, table.contents, e, handles[e].(refs := handles[e].refs + 1));
        ListMembers(next, prev, lru, inUse, e);
        OnListFacts(handles, clients, lru, inUse);
        Ref(e);
        clients := clients + multiset{e};
      }
    }

    /** A client gives a reference back. An entry that is not in the cache is destroyed with its last one. */
    method Release(e: nat)
      requires Valid() && e in clients
      modifies this
      ensures Valid() && table.contents == old(table.contents)
      ensures clients == old(clients) - multiset{e} && usage == old(usage)
      ensures destroyed == if e !in clients && !(e in old(handles) && old(handles)[e].inCache) then old(destroyed) + [e] else old(destroyed)
      ensures lru == if e !in clients && e in old(handles) && old(handles)[e].inCache then old(lru) + [e] else old(lru)
    {
      hide ListsOk, HandlesOk, UsageIs, IdsOk, TableOk, Without, NoDups;
      ClientFacts(handles, clients, lru, inUse, destroyed, nextId, e);
      UnrefKeeps(handles, clients, lru, inUse, usage, next, prev, e);
      if handles[e].refs == 1 {
        IdsDestroy(handles, destroyed, nextId, e);
        TableDestroy(handles, table.contents, e);
      } else {
        IdsSame(handles, destroyed, nextId, e, handles[e].(refs := handles[e].refs - 1));
        TableSame(handles, table.contents, e, handles[e].(refs := handles[e].refs - 1));
      }
      clients := clients - multiset{e};
      Unref(e);
    }

    /** Ends the cache's hold on an entry that is already out of the table. */
    method FinishErase(r: Option<nat>) returns (erased: bool)
      requires Consistent(r) && (r.Some? ==> r.value in handles && handles[r.value].inCache)
      modifies this
      ensures Valid() && table.contents == old(table.contents)
      ensures erased == r.Some? && clients == old(clients) && nextId == old(nextId)
      ensures r.None? ==> unchanged(this)
      ensures r.Some? ==> var h := old(handles)[r.value];
                          && usage + h.charge == old(usage)
                          && destroyed == (if h.refs == 1 then old(destroyed) + [r.value] else old(destroyed))
                          && lru == Without(old(lru), r.value) && inUse == Without(old(inUse), r.value)
                          && forall k :: k in old(handles) && k != r.value ==> k in handles && handles[k] == old(handles)[k]
    {
      hide ListsOk, UsageIs, IdsOk, Without, NoDups, HandlesOk, TableOk;
      if r.Some? {
        var e := r.value;
        InCacheFacts(handles, clients, lru, inUse, destroyed, nextId, e);
        EraseKeeps(handles, clients, lru, inUse, usage, next, prev, e);
        EraseKeepsTable(handles, table.contents, e);
        EraseKeepsIds(handles, destroyed, nextId, e);
        GivenInSteps(handles, e);
        LRURemove(e);
        handles := handles[e := handles[e].(inCache := false)];
        usage := usage - handles[e].charge;
        Unref(e);
      }
      return r.Some?;
    }

    method Erase(key: Bytes)
      requires Valid()
      modifies this, table
      ensures Valid() && table.contents == old(table.contents) - {key} && clients == old(clients)
      ensures usage <= old(usage)
      ensures lru == if key in old(table.contents) then Without(old(lru), old(table.contents)[key]) else old(lru)
      ensures key !in old(table.contents) ==> destroyed == old(destroyed)
      ensures key in old(table.contents) ==>
                var e := old(table.contents)[key];
                e in old(handles) && destroyed == if old(handles)[e].refs == 1 then old(destroyed) + [e] else old(destroyed)
    {
      hide ListsOk, UsageIs, IdsOk, Without, NoDups, HandlesOk, TableOk;
      TableRemove(handles, table.contents, key);
      var r := table.Remove(key);
      var _ := FinishErase(r);
    }

    /** Evicts the entry that was released longest ago. */
    method EvictOldest()
      requires Valid() && lru != []
      modifies this, table
      ensures Valid() && clients == old(clients) && nextId == old(nextId)
      ensures lru == old(lru)[1..] && inUse == old(inUse)
      ensures destroyed == old(destroyed) + [old(lru)[0]]
      ensures old(lru)[0] in old(handles) && usage + old(handles)[old(lru)[0]].charge == old(usage)
      ensures TableWithout(table.contents, old(table.contents), {old(lru)[0]})
      ensures forall k :: k in old(handles) && k != old(lru)[0] ==> k in handles && handles[k] == old(handles)[k]
    {
      hide ListsOk, UsageIs, IdsOk, NoDups, HandlesOk, Without;
      OldestIsFirst(next, prev, lru, inUse);
      var e := next[LRU];
      assert e in lru;
      OnListFacts(handles, clients, lru, inUse);
      InCacheFacts(handles, clients, lru, inUse, destroyed, nextId, e);
      TableRemove(handles, table.contents, handles[e].key);
      TableDropsOne(handles, table.contents, e);
      EvictKeepsLists(next, prev, lru, inUse, e);
      var r := table.Remove(handles[e].key);
      var _ := FinishErase(r);
    }

    method Prune()
      requires Valid()
      modifies this, table
      ensures Valid() && clients == old(clients) && lru == [] && inUse == old(inUse)
      ensures destroyed == old(destroyed) + old(lru)
    {
      hide ListsOk, UsageIs, IdsOk, NoDups, HandlesOk, TableOk;
      OldestIsFirst(next, prev, lru, inUse);
      while next[LRU] != LRU
        invariant Valid() && clients == old(clients) && inUse == old(inUse)
        invariant |lru| <= |old(lru)| && lru == old(lru)[|old(lru)| - |lru|..]
        invariant destroyed == old(destroyed) + old(lru)[..|old(lru)| - |lru|]
        invariant LRU in next && (next[LRU] != LRU <==> lru != [])
        decreases |lru|
      {
        ghost var k := |old(lru)| - |lru|;
        assert lru[0] == old(lru)[k] && old(lru)[..k + 1] == old(lru)[..k] + [old(lru)[k]];
        EvictOldest();
        OldestIsFirst(next, prev, lru, inUse);
      }
      assert old(lru)[..|old(lru)|] == old(lru);
    }

    /** Makes the entry, and puts it into the cache in place of one of the same key. */
    method AddEntry(key: Bytes, charge: nat) returns (e: nat)
      requires Valid()
      modifies this, table
      ensures Valid() && e == old(nextId) && e !in old(handles) && e !in lru
      ensures e in handles && handles[e].key == key && handles[e].charge == charge
      ensures clients == old(clients) + multiset{e}
      ensures table.contents == if capacity > 0 then old(table.contents)[key := e] else old(table.contents)
      ensures lru == Unreplaced(old(lru), old(table.contents), key, capacity)
      ensures destroyed == old(destroyed) + Unused(old(handles), Replaced(old(table.contents), key, capacity))
      ensures forall h :: h in old(handles) && Some(h) != Replaced(old(table.contents), key, capacity) ==>
                            h in handles && handles[h] == old(handles)[h]
    {
      hide ListsOk, UsageIs, IdsOk, NoDups, HandlesOk, Without, TableOk;
      e := nextId;
      NewIdFacts(handles, clients, lru, inUse, destroyed, e);
      if capacity > 0 {
        AddToCache(key, charge, e);
      } else {
        nextId := nextId + 1;
        NewClientKeeps(handles, clients, lru, inUse, usage, destroyed, table.contents, e, Handle(key, charge, 1, false));
        handles := handles[e := Handle(key, charge, 1, false)];
        clients := clients + multiset{e};
      }
    }

    method AddToCache(key: Bytes, charge: nat, e: nat)
      requires Valid() && e == nextId && capacity > 0
      modifies this, table
      ensures Valid() && e !in lru
      ensures e in handles && handles[e].key == key && handles[e].charge == charge
      ensures clients == old(clients) + multiset{e}
      ensures table.contents == old(table.contents)[key := e]
      ensures lru == Unreplaced(old(lru), old(table.contents), key, capacity)
      ensures destroyed == old(destroyed) + Unused(old(handles), Replaced(old(table.contents), key, capacity))
      ensures forall h :: h in old(handles) && Some(h) != Replaced(old(table.contents), key, capacity) ==>
                            h in handles && handles[h] == old(handles)[h]
    {
      hide ListsOk, UsageIs, IdsOk, NoDups, HandlesOk, Without, TableOk;
      NewIdFacts(handles, clients, lru, inUse, destroyed, e);
      nextId := nextId + 1;
      var h := Handle(key, charge, 2, true);
      NewEntryKeeps(handles, clients, lru, inUse, usage, destroyed, e, h);
      TableInsert(handles, table.contents, key, e, h);
      handles := handles[e := h];
      clients := clients + multiset{e};
      LRUAppend(IN_USE, e);
      usage := usage + charge;
      var r := table.Insert(key, e);
      InListFacts(handles, clients, lru, inUse, destroyed, nextId, next, prev, e, if r.Some? then r.value else e);
      var _ := FinishErase(r);
    }

    /** Evicts the oldest unused entries, one at a time, while the charge does not fit. */
    method Trim() returns (ghost evicted: seq<nat>)
      requires Valid()
      modifies this, table
      ensures Valid() && clients == old(clients) && (usage <= capacity || lru == [])
      ensures old(lru) == evicted + lru && destroyed == old(destroyed) + evicted
      ensures LastWasNeeded(old(handles), evicted, usage, capacity)
      ensures forall h :: h in old(handles) && h !in evicted ==> h in handles && handles[h] == old(handles)[h]
      ensures TableWithout(table.contents, old(table.contents), Nodes(evicted))
    {
      hide ListsOk, UsageIs, IdsOk, NoDups, HandlesOk, Without, TableOk, TableWithout, LastWasNeeded, Nodes;
      evicted := [];
      NoneNeeded(handles, usage, capacity);
      OldestIsFirst(next, prev, lru, inUse);
      OnListFacts(handles, clients, lru, inUse);
      ListsHaveNoDups(next, prev, lru, inUse);
      NothingWithout(table.contents);
      while usage > capacity && next[LRU] != LRU
        invariant Valid() && clients == old(clients)
        invariant old(lru) == evicted + lru && destroyed == old(destroyed) + evicted
        invariant LRU in next && (next[LRU] != LRU <==> lru != [])
        invariant LastWasNeeded(old(handles), evicted, usage, capacity)
        invariant forall h :: h in old(handles) && h !in evicted ==> h in handles && handles[h] == old(handles)[h]
        invariant TableWithout(table.contents, old(table.contents), Nodes(evicted))
        decreases |lru|
      {
        ghost var contents, e := table.contents, lru[0];
        FirstIsNew(old(lru), evicted, lru);
        EvictOldest();
        TableWithoutMore(table.contents, contents, old(table.contents), evicted, e);
        NowNeeded(old(handles), evicted, e, usage, capacity);
        evicted := evicted + [e];
        OldestIsFirst(next, prev, lru, inUse);
      }
    }

    lemma UnreplacedStay(key: Bytes)
      requires Valid()
      ensures forall h :: h in Unreplaced(lru, table.contents, key, capacity) ==>
                h in handles && Some(h) != Replaced(table.contents, key, capacity)
    {
      hide UsageIs, IdsOk, TableOk, Ring, NoDups, RefsOk;
      if key in table.contents {
        WithoutHas(lru, table.contents[key]);
      }
    }

    /** The client gets the only reference outside the cache. An entry of the same key is erased; then the
        oldest unused entries go, no more of them than it takes for the charge to fit. */
    method Insert(key: Bytes, charge: nat) returns (e: nat, ghost evicted: seq<nat>)
      requires Valid()
      modifies this, table
      ensures Valid() && e == old(nextId) && e !in old(handles)
      ensures e in handles && handles[e].key == key && handles[e].charge == charge
      ensures clients == old(clients) + multiset{e}
      ensures capacity > 0 ==> key in table.contents && table.contents[key] == e
      ensures usage <= capacity || lru == []
      ensures Unreplaced(old(lru), old(table.contents), key, capacity) == evicted + lru
      ensures LastWasNeeded(old(handles), evicted, usage, capacity)
      ensures destroyed == old(destroyed) + Unused(old(handles), Replaced(old(table.contents), key, capacity)) + evicted
      ensures forall h :: h in old(handles) && Some(h) != Replaced(old(table.contents), key, capacity) && h !in evicted ==>
                            h in handles && handles[h] == old(handles)[h]
      ensures TableWithout(table.contents,
                           if capacity > 0 then old(table.contents)[key := e] else old(table.contents), Nodes(evicted))
    {
      hide Consistent, Unreplaced, Replaced, Unused, TableWithout, LastWasNeeded;
      UnreplacedStay(key);
      e := AddEntry(key, charge);
      ghost var between := handles;
      evicted := Trim();
      assert forall h :: h in evicted ==> h in evicted + lru;
      if capacity > 0 {
        KeyStays(table.contents, old(table.contents)[key := e], Nodes(evicted), key);
      }
      StillNeeded(old(handles), between, evicted, usage, capacity);
    }
  }

  ghost function Nodes(list: seq<nat>): set<nat> {
    set n | n in list
  }

  /** The table has exactly the keys it had, except for those of the handles `gone`. */
  ghost predicate TableWithout(contents: map<Bytes, nat>, before: map<Bytes, nat>, gone: set<nat>) {
    && (forall key :: key in contents <==> key in before && before[key] !in gone)
    && (forall key :: key in contents ==> contents[key] == before[key])
  }

  /** Had the last evicted entry stayed, the charge would not fit. */
  ghost predicate LastWasNeeded(handles: map<nat, Handle>, evicted: seq<nat>, usage: nat, capacity: nat) {
    evicted != [] ==>
      var last := evicted[|evicted| - 1];
      last in handles && usage + handles[last].charge > capacity
  }

  /** The entry that an insertion replaces. */
  function Replaced(contents: map<Bytes, nat>, key: Bytes, capacity: nat): Option<nat> {
    if capacity > 0 && key in contents then Some(contents[key]) else None
  }

  /** The entry, if it only has the cache's own reference. */
  function Unused(handles: map<nat, Handle>, r: Option<nat>): seq<nat> {
    if r.Some? && r.value in handles && handles[r.value].refs == 1 then [r.value] else []
  }

  lemma StillNeeded(handles: map<nat, Handle>, handles1: map<nat, Handle>, evicted: seq<nat>, usage: nat, capacity: nat)
    requires LastWasNeeded(handles1, evicted, usage, capacity)
    requires forall h :: h in evicted ==> h in handles && (h in handles1 ==> handles1[h] == handles[h])
    ensures LastWasNeeded(handles, evicted, usage, capacity)
  {
  }

  lemma FirstIsNew(all: seq<nat>, evicted: seq<nat>, rest: seq<nat>)
    requires NoDups(all) && all == evicted + rest && rest != []
    ensures rest[0] !in evicted && rest[0] in all
  {
    assert all[|evicted|] == rest[0];
    assert forall i :: 0 <= i < |evicted| ==> evicted[i] == all[i];
  }

  lemma ListsHaveNoDups(next: map<nat, nat>, prev: map<nat, nat>, lru: seq<nat>, inUse: seq<nat>)
    requires ListsOk(next, prev, lru, inUse)
    ensures NoDups(lru) && NoDups(inUse)
  {
    hide Ring;
  }

  lemma TableDropsOne(handles: map<nat, Handle>, contents: map<Bytes, nat>, e: nat)
    requires TableOk(handles, contents, None) && e in handles && handles[e].inCache
    ensures TableWithout(contents - {handles[e].key}, contents, {e})
  {
  }

  lemma KeyStays(contents: map<Bytes, nat>, before: map<Bytes, nat>, gone: set<nat>, key: Bytes)
    requires TableWithout(contents, before, gone) && key in before && before[key] !in gone
    ensures key in contents && contents[key] == before[key]
  {
  }

  lemma NoneNeeded(handles: map<nat, Handle>, usage: nat, capacity: nat)
    ensures LastWasNeeded(handles, [], usage, capacity)
  {
  }

  lemma NowNeeded(handles: map<nat, Handle>, evicted: seq<nat>, e: nat, usage: nat, capacity: nat)
    requires e in handles && usage + handles[e].charge > capacity
    ensures LastWasNeeded(handles, evicted + [e], usage, capacity)
  {
  }

  lemma NothingWithout(contents: map<Bytes, nat>)
    ensures TableWithout(contents, contents, Nodes([]))
  {
  }

  lemma TableWithoutMore(contents: map<Bytes, nat>, between: map<Bytes, nat>, before: map<Bytes, nat>, gone: seq<nat>, e: nat)
    requires TableWithout(between, before, Nodes(gone)) && TableWithout(contents, between, {e})
    ensures TableWithout(contents, before, Nodes(gone + [e]))
  {
  }

  /** The LRU list without the entry that an insertion replaces. */
  ghost function Unreplaced(lru: seq<nat>, contents: map<Bytes, nat>, key: Bytes, capacity: nat): seq<nat> {
    if capacity > 0 && key in contents then Without(lru, contents[key]) else lru
  }

  lemma ListMembers(next: map<nat, nat>, prev: map<nat, nat>, lru: seq<nat>, inUse: seq<nat>, e: nat)
    requires ListsOk(next, prev, lru, inUse)
    ensures e !in Without(lru, e) && e !in Without(inUse, e)
    ensures e !in lru ==> Without(lru, e) == lru
    ensures e !in inUse ==> Without(inUse, e) == inUse
    ensures e in lru ==> e !in inUse
  {
    hide Ring;
    WithoutHas(lru, e);
    WithoutHas(inUse, e);
    if e !in lru {
      WithoutNone(lru, e);
    }
    if e !in inUse {
      WithoutNone(inUse, e);
    }
  }

  lemma TableLookup(handles: map<nat, Handle>, contents: map<Bytes, nat>, key: Bytes)
    requires TableOk(handles, contents, None) && key in contents
    ensures var e := contents[key]; e in handles && handles[e].key == key && handles[e].inCache
  {
  }

  lemma TableSame(handles: map<nat, Handle>, contents: map<Bytes, nat>, e: nat, h: Handle)
    requires TableOk(handles, contents, None) && e in handles && h.key == handles[e].key && h.inCache == handles[e].inCache
    ensures TableOk(handles[e := h], contents, None)
  {
  }

  lemma TableDestroy(handles: map<nat, Handle>, contents: map<Bytes, nat>, e: nat)
    requires TableOk(handles, contents, None) && e in handles && !handles[e].inCache
    ensures TableOk(handles - {e}, contents, None)
  {
  }

  lemma OldestIsFirst(next: map<nat, nat>, prev: map<nat, nat>, lru: seq<nat>, inUse: seq<nat>)
    requires ListsOk(next, prev, lru, inUse)
    ensures LRU in next && next[LRU] == if lru == [] then LRU else lru[0]
    ensures lru != [] ==> lru[0] != LRU
  {
    assert LinkedAt(next, prev, At(LRU, lru, -1), At(LRU, lru, 0));
    assert lru != [] ==> lru[0] in lru;
  }

  lemma EvictKeepsLists(next: map<nat, nat>, prev: map<nat, nat>, lru: seq<nat>, inUse: seq<nat>, e: nat)
    requires ListsOk(next, prev, lru, inUse) && lru != [] && e == lru[0]
    ensures Without(lru, e) == lru[1..] && Without(inUse, e) == inUse && e !in lru[1..]
  {
    hide Ring;
    assert e in lru;
    WithoutNone(inUse, e);
    WithoutHas(lru, e);
  }

  lemma OnListFacts(handles: map<nat, Handle>, clients: multiset<nat>, lru: seq<nat>, inUse: seq<nat>)
    requires HandlesOk(handles, clients, lru, inUse)
    ensures forall h :: h in lru ==> h in handles && handles[h].inCache && handles[h].refs == 1
    ensures forall h :: h in inUse ==> h in handles && handles[h].inCache && handles[h].refs >= 2
  {
  }

  lemma InCacheFacts(handles: map<nat, Handle>, clients: multiset<nat>, lru: seq<nat>, inUse: seq<nat>,
                     destroyed: seq<nat>, nextId: nat, e: nat)
    requires HandlesOk(handles, clients, lru, inUse) && IdsOk(handles, destroyed, nextId) && e in handles && handles[e].inCache
    ensures e >= 2 && handles[e].refs >= 1
    ensures handles[e].refs == 1 <==> e in lru
    ensures handles[e].refs >= 2 <==> e in inUse
  {
  }

  lemma ClientFacts(handles: map<nat, Handle>, clients: multiset<nat>, lru: seq<nat>, inUse: seq<nat>,
                    destroyed: seq<nat>, nextId: nat, e: nat)
    requires HandlesOk(handles, clients, lru, inUse) && IdsOk(handles, destroyed, nextId) && e in clients
    ensures e in handles && e >= 2 && handles[e].refs == clients[e] + if handles[e].inCache then 1 else 0
    ensures handles[e].refs == 2 && handles[e].inCache ==> e in inUse
  {
  }

  lemma IdsSame(handles: map<nat, Handle>, destroyed: seq<nat>, nextId: nat, e: nat, h: Handle)
    requires IdsOk(handles, destroyed, nextId) && e in handles
    ensures IdsOk(handles[e := h], destroyed, nextId)
  {
  }

  lemma IdsDestroy(handles: map<nat, Handle>, destroyed: seq<nat>, nextId: nat, e: nat)
    requires IdsOk(handles, destroyed, nextId) && e in handles
    ensures IdsOk(handles - {e}, destroyed + [e], nextId)
  {
    NoDupsGrow(destroyed, e);
  }

  /** The lists after a change of one handle's reference count. */
  lemma RefKeeps(handles: map<nat, Handle>, clients: multiset<nat>, lru: seq<nat>, inUse: seq<nat>, usage: nat,
                 next: map<nat, nat>, prev: map<nat, nat>, e: nat)
    requires HandlesOk(handles, clients, lru, inUse) && UsageIs(handles, lru, inUse, usage) && ListsOk(next, prev, lru, inUse)
    requires e in handles && handles[e].inCache
    ensures var h := handles[e];
            var handles1 := handles[e := h.(refs := h.refs + 1)];
            var lru1, inUse1 := if h.refs == 1 then Without(lru, e) else lru, if h.refs == 1 then inUse + [e] else inUse;
            HandlesOk(handles1, clients + multiset{e}, lru1, inUse1) && UsageIs(handles1, lru1, inUse1, usage)
  {
    hide Ring, Without, NoDups, Charges;
    var h := handles[e];
    var handles1 := handles[e := h.(refs := h.refs + 1)];
    ChargesSame(handles, handles1, lru);
    ChargesSame(handles, handles1, inUse);
    if h.refs == 1 {
      WithoutHas(lru, e);
      ChargesWithout(handles1, lru, e);
      ChargesAppend(handles1, inUse, e);
    }
  }

  lemma UnrefKeeps(handles: map<nat, Handle>, clients: multiset<nat>, lru: seq<nat>, inUse: seq<nat>, usage: nat,
                   next: map<nat, nat>, prev: map<nat, nat>, e: nat)
    requires HandlesOk(handles, clients, lru, inUse) && UsageIs(handles, lru, inUse, usage) && ListsOk(next, prev, lru, inUse)
    requires e in clients && e in handles
    ensures var h := handles[e];
            var handles1 := if h.refs == 1 then handles - {e} else handles[e := h.(refs := h.refs - 1)];
            var move := h.refs == 2 && h.inCache;
            var lru1, inUse1 := if move then lru + [e] else lru, if move then Without(inUse, e) else inUse;
            HandlesOk(handles1, clients - multiset{e}, lru1, inUse1) && UsageIs(handles1, lru1, inUse1, usage)
  {
    hide Ring, Without, NoDups, Charges, UsageIs, RefsOk;
    RefsDrop(handles, clients, e);
    var h := handles[e];
    var handles1 := if h.refs == 1 then handles - {e} else handles[e := h.(refs := h.refs - 1)];
    if h.refs == 2 && h.inCache {
      WithoutHas(inUse, e);
      UsageMoves(handles, handles1, lru, inUse, usage, e);
    } else {
      UsageStays(handles, handles1, lru, inUse, usage);
    }
  }

  lemma RefsDrop(handles: map<nat, Handle>, clients: multiset<nat>, e: nat)
    requires RefsOk(handles, clients) && e in clients && e in handles
    ensures var h := handles[e];
            h.refs >= 1 && (h.refs == 1 ==> !h.inCache)
            && RefsOk(if h.refs == 1 then handles - {e} else handles[e := h.(refs := h.refs - 1)], clients - multiset{e})
  {
    assert clients[e] >= 1;
  }

  lemma UsageStays(handles: map<nat, Handle>, handles1: map<nat, Handle>, lru: seq<nat>, inUse: seq<nat>, usage: nat)
    requires UsageIs(handles, lru, inUse, usage)
    requires forall h :: h in lru || h in inUse ==> h in handles1 && (h in handles ==> handles1[h].charge == handles[h].charge)
    ensures UsageIs(handles1, lru, inUse, usage)
  {
    hide Charges;
    ChargesSame(handles, handles1, lru);
    ChargesSame(handles, handles1, inUse);
  }

  lemma UsageMoves(handles: map<nat, Handle>, handles1: map<nat, Handle>, lru: seq<nat>, inUse: seq<nat>, usage: nat, e: nat)
    requires UsageIs(handles, lru, inUse, usage) && e in inUse && NoDups(inUse)
    requires forall h :: h in lru || h in inUse ==> h in handles1 && (h in handles ==> handles1[h].charge == handles[h].charge)
    ensures UsageIs(handles1, lru + [e], Without(inUse, e), usage)
  {
    hide Charges, Without, NoDups;
    UsageStays(handles, handles1, lru, inUse, usage);
    ChargesWithout(handles1, inUse, e);
    ChargesAppend(handles1, lru, e);
  }

  /** The handles after the cache gave up its reference on an entry. */
  function Given(handles: map<nat, Handle>, e: nat): map<nat, Handle>
    requires e in handles && handles[e].refs >= 1
  {
    var h := handles[e];
    if h.refs == 1 then handles - {e} else handles[e := h.(inCache := false, refs := h.refs - 1)]
  }

  lemma GivenInSteps(handles: map<nat, Handle>, e: nat)
    requires e in handles && handles[e].refs >= 1
    ensures var handles1 := handles[e := handles[e].(inCache := false)];
            Given(handles, e) == if handles1[e].refs == 1 then handles1 - {e} else handles1[e := handles1[e].(refs := handles1[e].refs - 1)]
    ensures forall k :: k in handles && k != e ==> k in Given(handles, e) && Given(handles, e)[k] == handles[k]
  {
  }

  lemma EraseKeeps(handles: map<nat, Handle>, clients: multiset<nat>, lru: seq<nat>, inUse: seq<nat>, usage: nat,
                   next: map<nat, nat>, prev: map<nat, nat>, e: nat)
    requires HandlesOk(handles, clients, lru, inUse) && UsageIs(handles, lru, inUse, usage) && ListsOk(next, prev, lru, inUse)
    requires e in handles && handles[e].inCache && handles[e].refs >= 1
    ensures HandlesOk(Given(handles, e), clients, Without(lru, e), Without(inUse, e))
    ensures usage >= handles[e].charge && UsageIs(Given(handles, e), Without(lru, e), Without(inUse, e), usage - handles[e].charge)
  {
    hide Ring, Without, NoDups, Charges;
    WithoutHas(lru, e);
    WithoutHas(inUse, e);
    var handles1 := Given(handles, e);
    if e in lru {
      WithoutNone(inUse, e);
      ChargesWithout(handles, lru, e);
    } else {
      WithoutNone(lru, e);
      ChargesWithout(handles, inUse, e);
    }
    ChargesSame(handles, handles1, Without(lru, e));
    ChargesSame(handles, handles1, Without(inUse, e));
  }

  lemma EraseKeepsTable(handles: map<nat, Handle>, contents: map<Bytes, nat>, e: nat)
    requires TableOk(handles, contents, Some(e)) && e in handles && handles[e].refs >= 1
    ensures TableOk(Given(handles, e), contents, None)
  {
  }

  lemma EraseKeepsIds(handles: map<nat, Handle>, destroyed: seq<nat>, nextId: nat, e: nat)
    requires IdsOk(handles, destroyed, nextId) && e in handles && handles[e].refs >= 1
    ensures IdsOk(Given(handles, e), if handles[e].refs == 1 then destroyed + [e] else destroyed, nextId)
  {
    hide NoDups;
    if handles[e].refs == 1 {
      IdsDestroy(handles, destroyed, nextId, e);
    }
  }

  lemma TableRemove(handles: map<nat, Handle>, contents: map<Bytes, nat>, key: Bytes)
    requires TableOk(handles, contents, None)
    ensures TableOk(handles, contents - {key}, if key in contents then Some(contents[key]) else None)
    ensures key in contents ==> contents[key] in handles && handles[contents[key]].inCache
  {
  }

  lemma TableInsert(handles: map<nat, Handle>, contents: map<Bytes, nat>, key: Bytes, e: nat, h: Handle)
    requires TableOk(handles, contents, None) && e !in handles && h.key == key && h.inCache
    ensures TableOk(handles[e := h], contents[key := e], if key in contents then Some(contents[key]) else None)
    ensures key in contents ==> contents[key] in handles && contents[key] != e && handles[contents[key]].inCache
  {
  }

  lemma NewIdFacts(handles: map<nat, Handle>, clients: multiset<nat>, lru: seq<nat>, inUse: seq<nat>, destroyed: seq<nat>, e: nat)
    requires HandlesOk(handles, clients, lru, inUse) && IdsOk(handles, destroyed, e)
    ensures e !in handles && e !in destroyed && e !in lru && e !in inUse && e !in clients
  {
  }

  lemma NewEntryKeeps(handles: map<nat, Handle>, clients: multiset<nat>, lru: seq<nat>, inUse: seq<nat>, usage: nat,
                      destroyed: seq<nat>, e: nat, h: Handle)
    requires HandlesOk(handles, clients, lru, inUse) && UsageIs(handles, lru, inUse, usage) && IdsOk(handles, destroyed, e) && e >= 2
    requires e !in handles && e !in destroyed && e !in lru && e !in inUse && e !in clients && h.refs == 2 && h.inCache
    ensures HandlesOk(handles[e := h], clients + multiset{e}, lru, inUse + [e])
    ensures UsageIs(handles[e := h], lru, inUse + [e], usage + h.charge) && IdsOk(handles[e := h], destroyed, e + 1)
  {
    hide NoDups, Charges;
    ChargesSame(handles, handles[e := h], lru);
    ChargesSame(handles, handles[e := h], inUse);
    ChargesAppend(handles[e := h], inUse, e);
  }

  lemma NewClientKeeps(handles: map<nat, Handle>, clients: multiset<nat>, lru: seq<nat>, inUse: seq<nat>, usage: nat,
                       destroyed: seq<nat>, contents: map<Bytes, nat>, e: nat, h: Handle)
    requires HandlesOk(handles, clients, lru, inUse) && UsageIs(handles, lru, inUse, usage) && IdsOk(handles, destroyed, e) && e >= 2
    requires TableOk(handles, contents, None)
    requires e !in handles && e !in destroyed && e !in lru && e !in inUse && e !in clients && h.refs == 1 && !h.inCache
    ensures HandlesOk(handles[e := h], clients + multiset{e}, lru, inUse)
    ensures UsageIs(handles[e := h], lru, inUse, usage) && IdsOk(handles[e := h], destroyed, e + 1)
    ensures TableOk(handles[e := h], contents, None)
  {
    hide NoDups, Charges;
    UsageStays(handles, handles[e := h], lru, inUse, usage);
  }

  lemma InListFacts(handles: map<nat, Handle>, clients: multiset<nat>, lru: seq<nat>, inUse: seq<nat>, destroyed: seq<nat>,
                    nextId: nat, next: map<nat, nat>, prev: map<nat, nat>, e: nat, r: nat)
    requires HandlesOk(handles, clients, lru, inUse) && ListsOk(next, prev, lru, inUse) && e in inUse
    ensures e !in lru && e !in Without(lru, r)
  {
    hide Ring, NoDups;
    WithoutHas(lru, r);
  }
}
