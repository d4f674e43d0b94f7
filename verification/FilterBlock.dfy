/** The filter block of a table: one filter for every two kilobytes of file offset
    (table/filter_block.cc). */
module FilterBlock {
  import opened Keys
  import opened Coding
  import opened Sequences
  import opened Bloom
  import opened Block

  const FILTER_BASE_LG: Byte := 11
  const FILTER_BASE: nat := 2048

  /** The list of keys that lie one after another in `keys`, beginning at the offsets in `start`. */
  ghost predicate Flattened(keys: Bytes, start: seq<nat>, list: seq<Bytes>) {
    && |list| == |start|
    && (forall i :: 0 <= i < |start| ==> KeyEnd(keys, start, i) <= |keys| && start[i] <= KeyEnd(keys, start, i)
                                         && keys[start[i]..KeyEnd(keys, start, i)] == list[i])
  }

  function KeyEnd(keys: Bytes, start: seq<nat>, i: nat): nat
    requires i < |start|
  {
    if i + 1 < |start| then start[i + 1] else |keys|
  }

  lemma FlattenedGrows(keys: Bytes, start: seq<nat>, list: seq<Bytes>, key: Bytes)
    requires Flattened(keys, start, list)
    ensures Flattened(keys + key, start + [|keys|], list + [key])
  {
    var keys1, start1 := keys + key, start + [|keys|];
    forall i | 0 <= i < |start1|
      ensures KeyEnd(keys1, start1, i) <= |keys1| && start1[i] <= KeyEnd(keys1, start1, i)
              && keys1[start1[i]..KeyEnd(keys1, start1, i)] == (list + [key])[i]
    {
      if i < |start| {
        assert KeyEnd(keys1, start1, i) == KeyEnd(keys, start, i);
      }
    }
  }

  /** Where filter `i` ends in the data. */
  function FilterEnd(offsets: seq<nat>, data: Bytes, i: nat): nat
    requires i < |offsets|
  {
    if i + 1 < |offsets| then offsets[i + 1] else |data|
  }

  /** The filter the policy makes: its size follows from the number of keys, its bits from the keys. */
  ghost predicate FilterFor(policy: BloomFilterPolicy, keys: seq<Bytes>, filter: Bytes) {
    && FilterOf(policy.hash, keys, filter, policy.k)
    && var bytes := (|keys| * policy.bitsPerKey + 7) / 8; |filter| - 1 == if bytes > 8 then bytes else 8
  }

  /** Filter `i` of the data is the filter of the keys in window `i`; a window without keys has none. */
  ghost predicate FilterAt(policy: BloomFilterPolicy, data: Bytes, offsets: seq<nat>, windows: seq<seq<Bytes>>, i: nat)
    requires i < |offsets| == |windows|
  {
    && offsets[i] <= FilterEnd(offsets, data, i) <= |data|
    && (windows[i] == [] ==> FilterEnd(offsets, data, i) == offsets[i])
    && (windows[i] != [] ==> FilterFor(policy, windows[i], data[offsets[i]..FilterEnd(offsets, data, i)]))
  }

  ghost predicate Filters(policy: BloomFilterPolicy, data: Bytes, offsets: seq<nat>, windows: seq<seq<Bytes>>) {
    |offsets| == |windows| && forall i :: 0 <= i < |offsets| ==> FilterAt(policy, data, offsets, windows, i)
  }

  lemma FiltersGrow(policy: BloomFilterPolicy, data: Bytes, offsets: seq<nat>, windows: seq<seq<Bytes>>, keys: seq<Bytes>, data1: Bytes)
    requires Filters(policy, data, offsets, windows)
    requires |data| <= |data1| && data1[..|data|] == data
    requires if keys == [] then data1 == data else FilterFor(policy, keys, data1[|data|..])
    ensures Filters(policy, data1, offsets + [|data|], windows + [keys])
  {
    hide FilterFor;
    var offsets1, windows1 := offsets + [|data|], windows + [keys];
    forall i | 0 <= i < |offsets1| ensures FilterAt(policy, data1, offsets1, windows1, i) {
      if i < |offsets| {
        assert FilterAt(policy, data, offsets, windows, i);
        assert FilterEnd(offsets1, data1, i) == FilterEnd(offsets, data, i);
        PrefixSlices(data, data1, offsets[i], FilterEnd(offsets, data, i));
      } else {
        assert data1[|data|..|data1|] == data1[|data|..];
      }
    }
  }

  lemma PrefixSlices(s: Bytes, t: Bytes, a: nat, b: nat)
    requires |s| <= |t| && t[..|s|] == s && a <= b <= |s|
    ensures t[a..b] == s[a..b]
  {
    assert t[..|s|][a..b] == t[a..b];
  }

  /** The keys of the blocks whose offsets lie in window `w`, in the order of their addition. */
  ghost function WindowKeys(added: seq<(nat, Bytes)>, w: nat): seq<Bytes> {
    if added == [] then []
    else
      var (offset, key) := added[|added| - 1];
      WindowKeys(added[..|added| - 1], w) + if offset / 2048 == w then [key] else []
  }

  /** Each window has exactly its keys; the last one is still open. */
  ghost predicate Recorded(added: seq<(nat, Bytes)>, windows: seq<seq<Bytes>>, pending: seq<Bytes>) {
    && (forall w :: 0 <= w < |windows| ==> windows[w] == WindowKeys(added, w))
    && pending == WindowKeys(added, |windows|)
    && (forall a :: a in added ==> a.0 / 2048 <= |windows|)
  }

  lemma WindowKeysGrow(added: seq<(nat, Bytes)>, offset: nat, key: Bytes, w: nat)
    ensures WindowKeys(added + [(offset, key)], w) == WindowKeys(added, w) + if offset / 2048 == w then [key] else []
  {
    assert (added + [(offset, key)])[..|added|] == added;
  }

  lemma {:induction false} WindowKeysHave(added: seq<(nat, Bytes)>, w: nat)
    ensures forall a :: a in added && a.0 / 2048 == w ==> a.1 in WindowKeys(added, w)
    ensures (forall a :: a in added ==> a.0 / 2048 != w) ==> WindowKeys(added, w) == []
  {
    if added != [] {
      var n := |added| - 1;
      WindowKeysHave(added[..n], w);
      assert added == added[..n] + [added[n]];
    }
  }

  class FilterBlockBuilder {
    const policy: BloomFilterPolicy
    var keys: Bytes
    var start: seq<nat>
    var result: Bytes
    var filterOffsets: seq<nat>
    ghost var pending: seq<Bytes>
    ghost var windows: seq<seq<Bytes>>
    /** The offset of the block that keys are being added for, and all keys with their block's offset. */
    ghost var block: nat
    ghost var added: seq<(nat, Bytes)>

    ghost predicate Valid()
      reads this
    {
      && policy.Valid()
      && Flattened(keys, start, pending)
      && Filters(policy, result, filterOffsets, windows)
      && block / 2048 == |windows|
      && Recorded(added, windows, pending)
    }

    constructor (policy: BloomFilterPolicy)
      requires policy.Valid()
      ensures Valid() && added == [] && block == 0 && this.policy == policy && result == []
    {
      this.policy := policy;
      keys, start, result, filterOffsets := [], [], [], [];
      pending, windows, block, added := [], [], 0, [];
    }

    method StartBlock(blockOffset: nat)
      requires Valid() && blockOffset >= block
      modifies this
      ensures Valid() && block == blockOffset && added == old(added)
    {
      hide Flattened, Filters, Recorded;
      var filterIndex := blockOffset / FILTER_BASE;
      SameCount(policy, result, filterOffsets, windows);
      while filterIndex > |filterOffsets|
        invariant Generated() && |filterOffsets| <= filterIndex && |windows| == |filterOffsets|
        invariant added == old(added)
        decreases filterIndex - |filterOffsets|
      {
        GenerateFilter();
        SameCount(policy, result, filterOffsets, windows);
      }
      block := blockOffset;
    }

    method AddKey(key: Bytes)
      requires Valid()
      modifies this
      ensures Valid() && block == old(block) && added == old(added) + [(block, key)]
    {
      hide Flattened, Filters;
      FlattenedGrows(keys, start, pending, key);
      RecordedGrows(added, windows, pending, block, key);
      start := start + [|keys|];
      keys := keys + key;
      pending := pending + [key];
      added := added + [(block, key)];
    }

    ghost predicate Generated()
      reads this
    {
      && policy.Valid() && Flattened(keys, start, pending)
      && Filters(policy, result, filterOffsets, windows) && Recorded(added, windows, pending)
    }

    /** Closes a window. */
    method GenerateFilter()
      requires Generated()
      modifies this
      ensures Generated() && windows == old(windows) + [old(pending)] && pending == [] && start == []
      ensures added == old(added) && block == old(block)
    {
      hide Filters, Recorded, FilterOf, WindowKeys;
      var numKeys := |start|;
      WindowCloses(added, windows, pending);
      if numKeys == 0 {
        assert result[..|result|] == result;
        FiltersGrow(policy, result, filterOffsets, windows, pending, result);
        filterOffsets := filterOffsets + [|result|];
        windows := windows + [pending];
        pending := [];
        return;
      }
      var list := Unflatten(keys, start, pending);
      var data := policy.CreateFilter(list, result);
      FiltersGrow(policy, result, filterOffsets, windows, pending, data);
      filterOffsets := filterOffsets + [|result|];
      result := data;
      windows := windows + [pending];
      keys, start, pending := [], [], [];
    }

    /** The filters, the array of their offsets, its own offset, and the window size. There is a filter for every
        window up to that of the last block with keys, or of the last block started. */
    method Finish() returns (contents: Bytes)
      requires Valid()
      modifies this
      ensures contents == Finished(result, filterOffsets) && Filters(policy, result, filterOffsets, windows)
      ensures Recorded(added, windows, [])
      ensures |windows| == block / 2048 + if WindowKeys(added, block / 2048) == [] then 0 else 1
      ensures |result| < TWO_32 ==>
                forall a :: a in added ==> ReaderMayMatch(policy, contents, a.0, a.1)
      ensures added == old(added) && block == old(block)
    {
      hide Filters, Flattened, ReaderMayMatch, RestartBytes, Fixed, Recorded;
      StartsMatch(keys, start, pending);
      OpenWindow(added, windows, pending);
      if start != [] {
        GenerateFilter();
      }
      contents := AppendOffsets(result, filterOffsets);
      if |result| < TWO_32 {
        forall a | a in added ensures ReaderMayMatch(policy, contents, a.0, a.1) {
          AddedMatches(policy, result, filterOffsets, windows, pending, added, a);
        }
      }
    }
  }

  lemma OpenWindow(added: seq<(nat, Bytes)>, windows: seq<seq<Bytes>>, pending: seq<Bytes>)
    requires Recorded(added, windows, pending)
    ensures pending == WindowKeys(added, |windows|)
  {
  }

  function Finished(data: Bytes, offsets: seq<nat>): Bytes {
    data + RestartBytes(offsets) + Fixed(|data|, 4) + [FILTER_BASE_LG]
  }

  method AppendOffsets(data: Bytes, offsets: seq<nat>) returns (r: Bytes)
    ensures r == Finished(data, offsets)
  {
    hide RestartBytes, Fixed;
    r := data;
    NoOffsets();
    for i := 0 to |offsets|
      invariant r == data + RestartBytes(offsets[..i])
    {
      OneMoreOffset(offsets, i);
      r := r + Fixed(offsets[i], 4);
    }
    WholePrefix(offsets);
    r := r + Fixed(|data|, 4);
    r := r + [FILTER_BASE_LG];
  }

  lemma NoOffsets()
    ensures RestartBytes([]) == []
  {
  }

  lemma SameCount(policy: BloomFilterPolicy, data: Bytes, offsets: seq<nat>, windows: seq<seq<Bytes>>)
    requires Filters(policy, data, offsets, windows)
    ensures |offsets| == |windows|
  {
  }

  lemma StartsMatch(keys: Bytes, start: seq<nat>, list: seq<Bytes>)
    requires Flattened(keys, start, list)
    ensures start == [] <==> list == []
  {
  }

  lemma RecordedGrows(added: seq<(nat, Bytes)>, windows: seq<seq<Bytes>>, pending: seq<Bytes>, block: nat, key: Bytes)
    requires Recorded(added, windows, pending) && block / 2048 == |windows|
    ensures Recorded(added + [(block, key)], windows, pending + [key])
  {
    hide WindowKeys;
    forall w: nat ensures WindowKeys(added + [(block, key)], w) == WindowKeys(added, w) + if block / 2048 == w then [key] else [] {
      WindowKeysGrow(added, block, key, w);
    }
    forall a | a in added + [(block, key)] ensures a.0 / 2048 <= |windows| {
      assert a in added || a == (block, key);
    }
  }

  lemma WindowCloses(added: seq<(nat, Bytes)>, windows: seq<seq<Bytes>>, pending: seq<Bytes>)
    requires Recorded(added, windows, pending)
    ensures Recorded(added, windows + [pending], [])
  {
    hide WindowKeys;
    WindowKeysHave(added, |windows| + 1);
  }

  method Unflatten(keys: Bytes, start: seq<nat>, ghost list: seq<Bytes>) returns (r: seq<Bytes>)
    requires Flattened(keys, start, list)
    ensures r == list
  {
    var ends := start + [|keys|];
    r := [];
    for i := 0 to |start|
      invariant r == list[..i]
    {
      assert ends[i + 1] == KeyEnd(keys, start, i);
      PrefixAppend(list, i);
      r := r + [keys[start[i]..ends[i + 1]]];
    }
  }

  lemma OneMoreOffset(offsets: seq<nat>, i: nat)
    requires i < |offsets|
    ensures RestartBytes(offsets[..i + 1]) == RestartBytes(offsets[..i]) + Fixed(offsets[i], 4)
  {
    hide Fixed;
    assert offsets[..i + 1][..i] == offsets[..i];
  }

  function Word(contents: Bytes, at: nat): Word32
    requires at + 4 <= |contents|
  {
    DecodeFixed32(contents[at..at + 4])
  }

  function ShiftRight(x: nat, n: nat): nat
    decreases n
  {
    if n == 0 then x else ShiftRight(x / 2, n - 1)
  }

  /** Where the offset array is, and its length: none if the contents are too short for it. */
  function ArrayOffset(contents: Bytes): nat {
    if |contents| < 5 then 0 else Word(contents, |contents| - 5)
  }

  function NumFilters(contents: Bytes): (num: nat)
    ensures num > 0 ==> ArrayOffset(contents) + 4 * num + 5 <= |contents|
  {
    if |contents| < 5 || ArrayOffset(contents) > |contents| - 5 then 0
    else (|contents| - 5 - ArrayOffset(contents)) / 4
  }

  /** What a reader of the filter block answers. */
  ghost predicate ReaderMayMatch(policy: BloomFilterPolicy, contents: Bytes, blockOffset: nat, key: Bytes) {
    NumFilters(contents) > 0 && ShiftRight(blockOffset, contents[|contents| - 1]) < NumFilters(contents) ==>
      var words := ArrayOffset(contents);
      var index := ShiftRight(blockOffset, contents[|contents| - 1]);
      FilterAnswers(policy, contents, words, Word(contents, words + 4 * index), Word(contents, words + 4 * index + 4), key)
  }

  /** Answers from the filter between `start` and `limit`; a damaged entry rules nothing out. */
  ghost predicate FilterAnswers(policy: BloomFilterPolicy, contents: Bytes, words: nat, start: nat, limit: nat, key: Bytes)
    requires words <= |contents|
  {
    if start <= limit <= words then MayMatch(policy.hash, key, contents[start..limit]) else start != limit
  }

  class FilterBlockReader {
    const policy: BloomFilterPolicy
    const data: Bytes
    const offset: nat
    const num: nat
    const baseLg: nat

    ghost predicate Valid() {
      && num == NumFilters(data)
      && (num > 0 ==> offset == ArrayOffset(data) && baseLg == data[|data| - 1])
    }

    constructor (policy: BloomFilterPolicy, contents: Bytes)
      ensures Valid() && this.policy == policy && data == contents
    {
      hide DecodeFixed32;
      this.policy, data := policy, contents;
      var n := |contents|;
      if n < 5 {
        offset, num, baseLg := 0, 0, 0;
      } else {
        baseLg := contents[n - 1];
        var lastWord := Word(contents, n - 5);
        if lastWord > n - 5 {
          offset, num := 0, 0;
        } else {
          offset, num := lastWord, (n - 5 - lastWord) / 4;
        }
      }
    }

    method KeyMayMatch(blockOffset: nat, key: Bytes) returns (r: bool)
      requires Valid()
      ensures r <==> ReaderMayMatch(policy, data, blockOffset, key)
    {
      hide NumFilters, ArrayOffset, Word, MayMatch, ShiftRight;
      var index := ShiftRight(blockOffset, baseLg);
      if index < num {
        var start := Word(data, offset + 4 * index);
        var limit := Word(data, offset + 4 * index + 4);
        if start <= limit && limit <= offset {
          r := policy.KeyMayMatch(key, data[start..limit]);
          return;
        } else if start == limit {
          return false;
        }
      }
      return true;
    }
  }

  /** Word `i` of the offset array and of what follows it. */
  lemma OffsetWord(data: Bytes, offsets: seq<nat>, i: nat)
    requires i <= |offsets| && |data| < TWO_32 && (i < |offsets| ==> offsets[i] < TWO_32)
    ensures Word(Finished(data, offsets), |data| + 4 * i) == if i < |offsets| then offsets[i] else |data|
  {
    hide Fixed, RestartBytes, DecodeFixed32;
    var at := |data| + 4 * i;
    var contents := Finished(data, offsets);
    if i < |offsets| {
      RestartInArray(offsets, i);
      var tail := Fixed(|data|, 4) + [FILTER_BASE_LG];
      assert contents == data + RestartBytes(offsets) + tail;
      MiddleSlice(data, RestartBytes(offsets), tail, 4 * i, 4 * i + 4);
      Fixed32RoundTrip(offsets[i]);
    } else {
      var front := data + RestartBytes(offsets);
      MiddleSlice(front, Fixed(|data|, 4), [FILTER_BASE_LG], 0, 4);
      assert Fixed(|data|, 4)[0..4] == Fixed(|data|, 4);
      Fixed32RoundTrip(|data|);
    }
  }

  /** The answer for a block in window `w`: no if the window has no keys, else what its filter says. */
  lemma WindowAnswers(policy: BloomFilterPolicy, data: Bytes, offsets: seq<nat>, windows: seq<seq<Bytes>>, blockOffset: nat, key: Bytes)
    requires policy.Valid() && Filters(policy, data, offsets, windows) && |data| < TWO_32
    requires blockOffset / 2048 < |windows|
    ensures var w := blockOffset / 2048;
            && |offsets| == |windows| && offsets[w] <= FilterEnd(offsets, data, w) <= |data|
            && (ReaderMayMatch(policy, Finished(data, offsets), blockOffset, key) <==>
                  windows[w] != [] && MayMatch(policy.hash, key, data[offsets[w]..FilterEnd(offsets, data, w)]))
  {
    hide FilterFor, MayMatch, Fixed, Word, ShiftRight;
    var contents, w := Finished(data, offsets), blockOffset / 2048;
    assert FilterAt(policy, data, offsets, windows, w);
    assert w + 1 < |offsets| ==> FilterAt(policy, data, offsets, windows, w + 1);
    assert |contents| - 5 == |data| + 4 * |offsets|;
    OffsetWord(data, offsets, |offsets|);
    assert ArrayOffset(contents) == |data| && NumFilters(contents) == |offsets|;
    WindowOf(blockOffset);
    OffsetWord(data, offsets, w);
    OffsetWord(data, offsets, w + 1);
    PrefixSlices(data, contents, offsets[w], FilterEnd(offsets, data, w));
    EmptyMatchesNothing(policy.hash, key);
  }

  lemma EmptyMatchesNothing(hash: Bytes -> Word32, key: Bytes)
    ensures !MayMatch(hash, key, [])
  {
  }

  /** No false negatives, from the builder's first block to the reader's answer. */
  lemma AddedMatches(policy: BloomFilterPolicy, data: Bytes, offsets: seq<nat>, windows: seq<seq<Bytes>>, pending: seq<Bytes>,
                     added: seq<(nat, Bytes)>, a: (nat, Bytes))
    requires policy.Valid() && Filters(policy, data, offsets, windows) && Recorded(added, windows, pending)
    requires pending == [] && a in added && |data| < TWO_32
    ensures ReaderMayMatch(policy, Finished(data, offsets), a.0, a.1)
  {
    hide FilterOf, MayMatch, ReaderMayMatch, WindowKeys;
    var w := a.0 / 2048;
    WindowKeysHave(added, w);
    assert w < |windows| && a.1 in windows[w];
    assert FilterAt(policy, data, offsets, windows, w);
    KeysMatch(policy.hash, windows[w], data[offsets[w]..FilterEnd(offsets, data, w)], policy.k, a.1);
    WindowAnswers(policy, data, offsets, windows, a.0, a.1);
  }

  /** The window size of the builder. */
  lemma WindowOf(blockOffset: nat)
    ensures ShiftRight(blockOffset, FILTER_BASE_LG) == blockOffset / FILTER_BASE
  {
    var x := blockOffset / 2 / 2 / 2 / 2;
    assert x == blockOffset / 16;
    var y := x / 2 / 2 / 2 / 2;
    assert y == x / 16 == blockOffset / 256;
    assert ShiftRight(blockOffset, 11) == ShiftRight(x, 7) by {
      assert ShiftRight(blockOffset / 2 / 2, 9) == ShiftRight(x, 7);
    }
    assert ShiftRight(x, 7) == ShiftRight(y, 3) by {
      assert ShiftRight(x / 2 / 2, 5) == ShiftRight(y, 3);
    }
    assert ShiftRight(y, 3) == ShiftRight(y / 2 / 2, 1) == y / 2 / 2 / 2;
  }
}
