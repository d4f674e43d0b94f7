/** Prefix-compressed blocks with restart points: building them (table/block_builder.cc) and moving
    through them (table/block.cc). */
module Block {
  import opened Keys
  import opened Coding
  import opened Sequences

  datatype Item = Item(key: Bytes, value: Bytes)

  /** A comparator, given by the places of strings in its order. */
  type Order = Bytes -> real

  ghost predicate Increasing(rank: Order, items: seq<Item>) {
    forall i, j :: 0 <= i < j < |items| ==> rank(items[i].key) < rank(items[j].key)
  }

  predicate Fits(item: Item) {
    |item.key| < TWO_32 && |item.value| < TWO_32
  }

  /** An entry that shares the first `shared` bytes of its key with the entry before it. */
  function EntryBytes(item: Item, shared: nat): (r: Bytes)
    requires Fits(item) && shared <= |item.key|
    ensures |r| >= 3
  {
    Varint(shared) + Varint(|item.key| - shared) + Varint(|item.value|) + item.key[shared..] + item.value
  }

  /** Where the entries of a block are: `starts[i]` is the offset of entry `i` (and the last of them is
      the end), `shared[i]` how much of its key comes from the entry before, `at[r]` the entry at
      restart point `r`. */
  datatype Layout = Layout(items: seq<Item>, starts: seq<nat>, shared: seq<nat>, at: seq<nat>)

  ghost predicate EntryAt(l: Layout, data: Bytes, i: nat)
    requires i < |l.items| == |l.shared| && |l.starts| == |l.items| + 1
  {
    && Fits(l.items[i]) && l.shared[i] <= |l.items[i].key|
    && l.starts[i] + |EntryBytes(l.items[i], l.shared[i])| == l.starts[i + 1] <= |data|
    && data[l.starts[i]..l.starts[i + 1]] == EntryBytes(l.items[i], l.shared[i])
    && l.shared[i] <= |KeyBefore(l, i)| && KeyBefore(l, i)[..l.shared[i]] == l.items[i].key[..l.shared[i]]
  }

  function KeyBefore(l: Layout, i: nat): Bytes
    requires i <= |l.items|
  {
    if i == 0 then [] else l.items[i - 1].key
  }

  ghost predicate Entries(l: Layout, data: Bytes) {
    && |l.starts| == |l.items| + 1 && |l.shared| == |l.items|
    && l.starts[0] == 0 && l.starts[|l.items|] == |data|
    && forall i :: 0 <= i < |l.items| ==> EntryAt(l, data, i)
  }

  ghost predicate RestartsAt(l: Layout) {
    && |l.shared| == |l.items|
    && l.at != [] && l.at[0] == 0
    && (forall q, r :: 0 <= q < r < |l.at| ==> l.at[q] < l.at[r])
    && (forall r :: 0 <= r < |l.at| ==> l.at[r] < |l.items| || (l.items == [] && r == 0))
    && (forall r :: 0 <= r < |l.at| && l.at[r] < |l.items| ==> l.shared[l.at[r]] == 0)
  }

  ghost predicate Offsets(l: Layout, restarts: seq<nat>) {
    && |restarts| == |l.at|
    && forall r :: 0 <= r < |l.at| ==> l.at[r] < |l.starts| && restarts[r] == l.starts[l.at[r]]
  }

  lemma {:induction false} StartsIncrease(l: Layout, data: Bytes, i: nat, j: nat)
    requires Entries(l, data) && i <= j <= |l.items|
    ensures l.starts[i] + 3 * (j - i) <= l.starts[j] <= |data|
    decreases |l.items| - i
  {
    if i < j {
      assert EntryAt(l, data, i);
      StartsIncrease(l, data, i + 1, j);
    } else if i < |l.items| {
      assert EntryAt(l, data, i);
      StartsIncrease(l, data, i + 1, |l.items|);
    }
  }

  function CommonPrefix(a: Bytes, b: Bytes): (n: nat)
    ensures n <= |a| && n <= |b| && a[..n] == b[..n]
    ensures n < |a| && n < |b| ==> a[n] != b[n]
  {
    if a == [] || b == [] || a[0] != b[0] then 0
    else
      var n := CommonPrefix(a[1..], b[1..]);
      assert a[..n + 1] == [a[0]] + a[1..][..n] && b[..n + 1] == [b[0]] + b[1..][..n];
      n + 1
  }

  function RestartBytes(restarts: seq<nat>): (r: Bytes)
    ensures |r| == 4 * |restarts|
  {
    if restarts == [] then [] else RestartBytes(restarts[..|restarts| - 1]) + Fixed(restarts[|restarts| - 1], 4)
  }

  lemma {:induction false} RestartInArray(restarts: seq<nat>, r: nat)
    requires r < |restarts|
    ensures RestartBytes(restarts)[4 * r..4 * r + 4] == Fixed(restarts[r], 4)
    decreases |restarts|
  {
    hide Fixed;
    var shorter := restarts[..|restarts| - 1];
    if r < |shorter| {
      RestartInArray(shorter, r);
      assert RestartBytes(restarts)[4 * r..4 * r + 4] == RestartBytes(shorter)[4 * r..4 * r + 4];
    }
  }

  /** The finished block: entries, restart array, and its length. */
  function BlockBytes(data: Bytes, restarts: seq<nat>): Bytes {
    data + RestartBytes(restarts) + Fixed(|restarts|, 4)
  }

  /** The layout after one more entry, which becomes a restart point or not. */
  function Extended(l: Layout, item: Item, shared: nat, end: nat, restart: bool): Layout {
    Layout(l.items + [item], l.starts + [end], l.shared + [shared], if restart then l.at + [|l.items|] else l.at)
  }

  lemma EntriesExtend(l: Layout, data: Bytes, item: Item, shared: nat, restart: bool)
    requires Entries(l, data) && Fits(item) && shared <= |item.key|
    requires shared <= |KeyBefore(l, |l.items|)| && KeyBefore(l, |l.items|)[..shared] == item.key[..shared]
    ensures var data1 := data + EntryBytes(item, shared);
            Entries(Extended(l, item, shared, |data1|, restart), data1)
  {
    hide EntryBytes;
    var data1 := data + EntryBytes(item, shared);
    var l1 := Extended(l, item, shared, |data1|, restart);
    forall i | 0 <= i < |l1.items| ensures EntryAt(l1, data1, i) {
      if i < |l.items| {
        assert EntryAt(l, data, i);
        assert data1[l.starts[i]..l.starts[i + 1]] == data[l.starts[i]..l.starts[i + 1]];
        assert KeyBefore(l1, i) == KeyBefore(l, i);
      } else {
        assert data1[|data|..] == EntryBytes(item, shared);
        assert KeyBefore(l1, i) == KeyBefore(l, i);
      }
    }
  }

  /** Every `interval` entries there is a restart point; every other entry shares as much of its key
      as it can. */
  ghost predicate Built(rank: Order, interval: nat, l: Layout, data: Bytes, restarts: seq<nat>, counter: nat) {
    && Increasing(rank, l.items)
    && Entries(l, data) && RestartsAt(l) && Offsets(l, restarts)
    && counter <= interval && counter == |l.items| - l.at[|l.at| - 1]
    && EveryInterval(l.at, interval) && SharesAll(l)
  }

  ghost predicate EveryInterval(at: seq<nat>, interval: nat) {
    forall r :: 0 <= r < |at| ==> at[r] == r * interval
  }

  ghost predicate SharesAll(l: Layout)
    requires |l.shared| == |l.items|
  {
    forall i :: 0 <= i < |l.items| ==> i in l.at || l.shared[i] == CommonPrefix(KeyBefore(l, i), l.items[i].key)
  }

  lemma BuildOne(rank: Order, interval: nat, l: Layout, data: Bytes, restarts: seq<nat>, counter: nat, item: Item, shared: nat)
    requires Built(rank, interval, l, data, restarts, counter) && interval >= 1 && Fits(item)
    requires data == [] || rank(KeyBefore(l, |l.items|)) < rank(item.key)
    requires shared == if counter < interval then CommonPrefix(KeyBefore(l, |l.items|), item.key) else 0
    ensures var data1 := data + EntryBytes(item, shared);
            Built(rank, interval, Extended(l, item, shared, |data1|, counter == interval), data1,
                  if counter == interval then restarts + [|data|] else restarts,
                  if counter == interval then 1 else counter + 1)
  {
    hide EntryBytes, EntryAt, Increasing, EveryInterval, SharesAll;
    var restart := counter == interval;
    var data1 := data + EntryBytes(item, shared);
    FirstKeyLength(l, item);
    EntriesExtend(l, data, item, shared, restart);
    IncreasingExtend(rank, l, data, item);
    RestartsExtend(l, item, shared, |data1|, restart);
    if restart {
      IntervalExtend(l.at, interval, |l.items|);
    }
    SharesExtend(l, item, shared, |data1|, restart);
  }

  lemma FirstKeyLength(l: Layout, item: Item)
    ensures CommonPrefix(KeyBefore(l, |l.items|), item.key) <= |KeyBefore(l, |l.items|)|
  {
  }

  lemma IntervalExtend(at: seq<nat>, interval: nat, n: nat)
    requires EveryInterval(at, interval) && at != [] && n == at[|at| - 1] + interval
    ensures EveryInterval(at + [n], interval)
  {
    Multiples(|at|, interval);
  }

  lemma SharesExtend(l: Layout, item: Item, shared: nat, end: nat, restart: bool)
    requires |l.shared| == |l.items| && SharesAll(l)
    requires !restart ==> shared == CommonPrefix(KeyBefore(l, |l.items|), item.key)
    ensures SharesAll(Extended(l, item, shared, end, restart))
  {
    hide CommonPrefix;
    var l1 := Extended(l, item, shared, end, restart);
    forall i | 0 <= i < |l1.items| ensures i in l1.at || l1.shared[i] == CommonPrefix(KeyBefore(l1, i), l1.items[i].key) {
      assert KeyBefore(l1, i) == KeyBefore(l, i);
      if i == |l.items| {
        assert restart ==> l1.at[|l.at|] == i;
      } else if i in l.at {
        var r :| 0 <= r < |l.at| && l.at[r] == i;
        assert l1.at[r] == i;
      }
    }
  }

  lemma Multiples(n: nat, interval: nat)
    requires n > 0
    ensures (n - 1) * interval + interval == n * interval
  {
  }

  lemma IncreasingExtend(rank: Order, l: Layout, data: Bytes, item: Item)
    requires Entries(l, data) && Increasing(rank, l.items)
    requires data == [] || rank(KeyBefore(l, |l.items|)) < rank(item.key)
    ensures Increasing(rank, l.items + [item])
  {
    StartsIncrease(l, data, 0, |l.items|);
    forall i | 0 <= i < |l.items| ensures rank(l.items[i].key) < rank(item.key) {
      assert i == |l.items| - 1 || rank(l.items[i].key) < rank(l.items[|l.items| - 1].key);
    }
  }

  lemma RestartsExtend(l: Layout, item: Item, shared: nat, end: nat, restart: bool)
    requires RestartsAt(l) && |l.starts| == |l.items| + 1
    requires (restart ==> l.items != [] && shared == 0) && (l.items == [] ==> shared == 0)
    ensures RestartsAt(Extended(l, item, shared, end, restart))
  {
  }

  lemma LongestPrefix(a: Bytes, b: Bytes, n: nat)
    requires n <= |a| && n <= |b| && a[..n] == b[..n] && (n < |a| && n < |b| ==> a[n] != b[n])
    ensures n == CommonPrefix(a, b)
  {
    var m := CommonPrefix(a, b);
    assert forall i :: 0 <= i < n ==> a[i] == a[..n][i] == b[..n][i] == b[i];
    assert forall i :: 0 <= i < m ==> a[i] == a[..m][i] == b[..m][i] == b[i];
  }

  method SharedLength(a: Bytes, b: Bytes) returns (shared: nat)
    ensures shared == CommonPrefix(a, b) && a[..shared] == b[..shared]
  {
    var minLength := if |a| < |b| then |a| else |b|;
    shared := 0;
    while shared < minLength && a[shared] == b[shared]
      invariant 0 <= shared <= minLength && a[..shared] == b[..shared]
    {
      PrefixAppend(a, shared);
      PrefixAppend(b, shared);
      shared := shared + 1;
    }
    LongestPrefix(a, b, shared);
  }

  method AppendEntry(buffer: Bytes, item: Item, shared: nat) returns (r: Bytes)
    requires Fits(item) && shared <= |item.key|
    ensures r == buffer + EntryBytes(item, shared)
    ensures |r| <= |buffer| + |item.key| + |item.value| + 15
  {
    hide Varint;
    var nonShared := |item.key| - shared;
    var a := EncodeVarint32(shared);
    var b := EncodeVarint32(nonShared);
    var c := EncodeVarint32(|item.value|);
    r := buffer + a + b + c;
    r := r + item.key[shared..];
    r := r + item.value;
    EntryParts(buffer, item, shared, a, b, c);
  }

  class BlockBuilder {
    const rank: Order
    const interval: nat
    var buffer: Bytes
    var restarts: seq<nat>
    var counter: nat
    var finished: bool
    var lastKey: Bytes
    ghost var l: Layout

    ghost predicate Valid()
      reads this
    {
      interval >= 1 && lastKey == KeyBefore(l, |l.items|)
      && (!finished ==> Built(rank, interval, l, buffer, restarts, counter))
    }

    constructor (rank: Order, interval: nat)
      requires interval >= 1
      ensures Valid() && l.items == [] && !finished && this.rank == rank && this.interval == interval && buffer == []
    {
      this.rank, this.interval := rank, interval;
      buffer, restarts, counter, finished, lastKey := [], [0], 0, false, [];
      l := Layout([], [0], [], [0]);
    }

    method Add(key: Bytes, value: Bytes)
      requires Valid() && !finished && Fits(Item(key, value))
      requires buffer == [] || rank(lastKey) < rank(key)
      modifies this
      ensures Valid() && !finished && l.items == old(l.items) + [Item(key, value)]
      ensures |buffer| <= |old(buffer)| + |key| + |value| + 15
    {
      hide Built, EntryBytes, Varint, CommonPrefix;
      var item := Item(key, value);
      ghost var l0, buffer0, restarts0, counter0 := l, buffer, restarts, counter;
      CounterBound(rank, interval, l, buffer, restarts, counter);
      var last := lastKey;
      var shared := 0;
      if counter < interval {
        shared := SharedLength(last, key);
      } else {
        restarts := restarts + [|buffer|];
        counter := 0;
      }
      BuildOne(rank, interval, l0, buffer0, restarts0, counter0, item, shared);
      buffer := AppendEntry(buffer, item, shared);
      lastKey := last[..shared] + key[shared..];
      assert key == key[..shared] + key[shared..];
      counter := counter + 1;
      l := Extended(l, item, shared, |buffer|, counter0 == interval);
    }

    /** The finished block. */
    method Finish() returns (block: Bytes)
      requires Valid() && !finished && |restarts| < TWO_32 && |buffer| < TWO_32
      modifies this
      ensures finished && l == old(l)
      ensures block == BlockBytes(old(buffer), old(restarts))
    {
      hide Built, Fixed;
      ghost var buffer0 := buffer;
      for i := 0 to |restarts|
        invariant restarts == old(restarts) && l == old(l)
        invariant buffer == buffer0 + RestartBytes(restarts[..i])
      {
        PrefixAppend(restarts, i);
        assert restarts[..i + 1][..i] == restarts[..i];
        buffer := buffer + Fixed(restarts[i], 4);
      }
      WholePrefix(restarts);
      buffer := buffer + Fixed(|restarts|, 4);
      finished := true;
      return buffer;
    }
  }

  lemma CounterBound(rank: Order, interval: nat, l: Layout, data: Bytes, restarts: seq<nat>, counter: nat)
    requires Built(rank, interval, l, data, restarts, counter)
    ensures counter <= interval
  {
  }

  lemma EntryParts(data: Bytes, item: Item, shared: nat, a: Bytes, b: Bytes, c: Bytes)
    requires Fits(item) && shared <= |item.key|
    requires a == Varint(shared) && b == Varint(|item.key| - shared) && c == Varint(|item.value|)
    ensures data + a + b + c + item.key[shared..] + item.value == data + EntryBytes(item, shared)
  {
  }
}
