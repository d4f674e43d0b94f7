/** Reading a block (table/block.cc): the iterator is a cursor over the entries the block was built from. */
module BlockIter {
  import opened Keys
  import opened Coding
  import opened Sequences
  import opened Block

  datatype Header = Header(shared: nat, nonShared: nat, valueLength: nat)

  /** The three lengths in front of an entry, if the rest of the entry fits after them. */
  function DecodeHeader(input: Bytes): (r: Parsed<Header>)
    ensures r.Parsed? ==> |r.rest| <= |input| && r.value.nonShared + r.value.valueLength <= |r.rest|
  {
    if |input| < 3 then Malformed
    else
      match GetVarint32(input)
      case Malformed => Malformed
      case Parsed(shared, rest1) =>
        match GetVarint32(rest1)
        case Malformed => Malformed
        case Parsed(nonShared, rest2) =>
          match GetVarint32(rest2)
          case Malformed => Malformed
          case Parsed(valueLength, rest3) =>
            if |rest3| < nonShared + valueLength then Malformed
            else Parsed(Header(shared, nonShared, valueLength), rest3)
  }

  /** The fast path for three one-byte lengths decodes what the general one does. */
  method DecodeEntry(input: Bytes) returns (r: Parsed<Header>)
    ensures r == DecodeHeader(input)
  {
    if |input| < 3 {
      return Malformed;
    }
    var rest := input[3..];
    var h := Header(input[0], input[1], input[2]);
    if h.shared < 128 && h.nonShared < 128 && h.valueLength < 128 {
      OneByteEach(input);
    } else {
      hide ParseVarint;
      var a := GetVarintPtr(input, 5, TWO_32);
      if a.Malformed? {
        return Malformed;
      }
      var b := GetVarintPtr(a.rest, 5, TWO_32);
      if b.Malformed? {
        return Malformed;
      }
      var c := GetVarintPtr(b.rest, 5, TWO_32);
      if c.Malformed? {
        return Malformed;
      }
      h, rest := Header(a.value, b.value, c.value), c.rest;
    }
    if |rest| < h.nonShared + h.valueLength {
      return Malformed;
    }
    return Parsed(h, rest);
  }

  lemma OneByteEach(input: Bytes)
    requires |input| >= 3 && input[0] < 128 && input[1] < 128 && input[2] < 128
    ensures GetVarint32(input) == Parsed(input[0], input[1..])
    ensures GetVarint32(input[1..]) == Parsed(input[1], input[2..])
    ensures GetVarint32(input[2..]) == Parsed(input[2], input[3..])
  {
    assert input[1..][1..] == input[2..] && input[2..][1..] == input[3..];
  }

  lemma EntryDecodes(item: Item, shared: nat, tail: Bytes)
    requires Fits(item) && shared <= |item.key|
    ensures DecodeHeader(EntryBytes(item, shared) + tail)
         == Parsed(Header(shared, |item.key| - shared, |item.value|), item.key[shared..] + item.value + tail)
  {
    hide Varint, GetVarint32;
    var rest3 := item.key[shared..] + item.value + tail;
    var rest2 := Varint(|item.value|) + rest3;
    var rest1 := Varint(|item.key| - shared) + rest2;
    assert EntryBytes(item, shared) + tail == Varint(shared) + rest1;
    Varint32RoundTrip(shared, rest1);
    Varint32RoundTrip(|item.key| - shared, rest2);
    Varint32RoundTrip(|item.value|, rest3);
  }

  /** Number of restart points, from the last four bytes. */
  function NumRestarts(block: Bytes): Word32
    requires |block| >= 4
  {
    DecodeFixed32(block[|block| - 4..])
  }

  /** Offset of the restart array and its length; none for a block too small to hold it. */
  function Shape(block: Bytes): (r: Option<(nat, nat)>)
    ensures r.Some? ==> r.value.0 + 4 * r.value.1 + 4 == |block|
  {
    if |block| < 4 || NumRestarts(block) > (|block| - 4) / 4 then None
    else Some((|block| - (1 + NumRestarts(block)) * 4, NumRestarts(block)))
  }

  function RestartPoint(block: Bytes, restarts: nat, index: nat): Word32
    requires restarts + 4 * index + 4 <= |block|
  {
    DecodeFixed32(block[restarts + 4 * index..restarts + 4 * index + 4])
  }

  /** The block with its restart array at `restarts` has the layout `l`. */
  ghost predicate Formed(block: Bytes, restarts: nat, num: nat, l: Layout) {
    && restarts + 4 * num + 4 == |block|
    && Entries(l, block[..restarts]) && RestartsAt(l)
    && |l.at| == num
    && forall r :: 0 <= r < num ==> l.at[r] < |l.starts| && RestartPoint(block, restarts, r) == l.starts[l.at[r]]
  }

  /** A finished block opens as it was built. */
  lemma FinishedOpens(data: Bytes, restarts: seq<nat>, l: Layout)
    requires Entries(l, data) && RestartsAt(l) && Offsets(l, restarts)
    requires |data| < TWO_32 && |restarts| < TWO_32
    ensures var block := BlockBytes(data, restarts);
            Shape(block) == Some((|data|, |restarts|)) && Formed(block, |data|, |restarts|, l)
  {
    hide Entries, RestartsAt, BlockBytes, RestartPoint, Fixed, FixedValue;
    var block := BlockBytes(data, restarts);
    BlockEnds(data, restarts);
    forall r | 0 <= r < |restarts| ensures RestartPoint(block, |data|, r) == l.starts[l.at[r]] {
      StartInData(l, data, l.at[r]);
      RestartReads(data, restarts, r);
    }
  }

  /** The data comes first, the number of restart points last. */
  lemma BlockEnds(data: Bytes, restarts: seq<nat>)
    requires |restarts| < TWO_32
    ensures var block := BlockBytes(data, restarts);
            |block| == |data| + 4 * |restarts| + 4 && block[..|data|] == data && NumRestarts(block) == |restarts|
  {
    hide Fixed, FixedValue;
    var block := BlockBytes(data, restarts);
    assert block[|block| - 4..] == Fixed(|restarts|, 4);
    Fixed32RoundTrip(|restarts|);
  }

  lemma RestartReads(data: Bytes, restarts: seq<nat>, r: nat)
    requires r < |restarts| && restarts[r] < TWO_32
    ensures var block := BlockBytes(data, restarts);
            |block| == |data| + 4 * |restarts| + 4 && RestartPoint(block, |data|, r) == restarts[r]
  {
    hide Fixed, FixedValue, RestartBytes;
    var block := BlockBytes(data, restarts);
    RestartInArray(restarts, r);
    MiddleSlice(data, RestartBytes(restarts), Fixed(|restarts|, 4), 4 * r, 4 * r + 4);
    Fixed32RoundTrip(restarts[r]);
  }

  lemma StartInData(l: Layout, data: Bytes, i: nat)
    requires Entries(l, data) && i < |l.starts|
    ensures l.starts[i] <= |data|
  {
    StartsIncrease(l, data, i, |l.items|);
  }

  /** The cursor stands on entry `i`. */
  ghost predicate StandsOn(block: Bytes, l: Layout, i: nat, current: nat, key: Bytes, valueStart: nat, valueEnd: nat) {
    && i < |l.items| && |l.starts| == |l.items| + 1
    && current == l.starts[i] && key == l.items[i].key
    && valueStart <= valueEnd == l.starts[i + 1] <= |block|
    && block[valueStart..valueEnd] == l.items[i].value
  }

  /** Enough of the key is there to decode entry `i`, which begins at `offset`. */
  ghost predicate Before(l: Layout, i: nat, key: Bytes, offset: nat) {
    && i <= |l.items| && |l.starts| == |l.items| + 1 && |l.shared| == |l.items|
    && offset == l.starts[i]
    && (i < |l.items| ==>
          l.shared[i] <= |key| && l.shared[i] <= |l.items[i].key| && key[..l.shared[i]] == l.items[i].key[..l.shared[i]])
  }

  /** `index` is the last restart point before entry `i`, or the one at it. */
  ghost predicate InRestart(l: Layout, index: nat, i: nat) {
    && index < |l.at| && l.at[index] <= i
    && (index + 1 < |l.at| ==> l.at[index + 1] >= i)
  }

  lemma StandingIsBefore(block: Bytes, restarts: nat, num: nat, l: Layout, i: nat, current: nat, key: Bytes,
                         valueStart: nat, valueEnd: nat)
    requires Formed(block, restarts, num, l) && StandsOn(block, l, i, current, key, valueStart, valueEnd)
    ensures Before(l, i + 1, key, valueEnd) && current < valueEnd <= restarts
    ensures valueEnd == restarts <==> i + 1 == |l.items|
  {
    hide EntryBytes;
    StartsIncrease(l, block[..restarts], i, i + 1);
    StartsIncrease(l, block[..restarts], i + 1, |l.items|);
    if i + 1 < |l.items| {
      assert EntryAt(l, block[..restarts], i + 1);
    }
  }

  lemma RestartIsBefore(block: Bytes, restarts: nat, num: nat, l: Layout, index: nat)
    requires Formed(block, restarts, num, l) && index < num
    ensures Before(l, l.at[index], [], RestartPoint(block, restarts, index)) && InRestart(l, index, l.at[index])
    ensures l.at[index] < |l.items| || l.items == []
  {
    hide EntryBytes;
    var i := l.at[index];
    if i < |l.items| {
      assert EntryAt(l, block[..restarts], i);
    }
  }

  /** Decoding entry `i`. */
  lemma EntryParses(block: Bytes, restarts: nat, num: nat, l: Layout, i: nat, key: Bytes)
    requires Formed(block, restarts, num, l) && i < |l.items| && Before(l, i, key, l.starts[i])
    ensures l.starts[i] < restarts
    ensures var r := DecodeHeader(block[l.starts[i]..restarts]);
            && r.Parsed? && r.value.shared <= |key|
            && var p := restarts - |r.rest|;
               var value := p + r.value.nonShared;
               && StandsOn(block, l, i, l.starts[i], key[..r.value.shared] + block[p..value], value, value + r.value.valueLength)
  {
    hide EntryBytes, DecodeHeader;
    var data := block[..restarts];
    var item, shared, start, end := l.items[i], l.shared[i], l.starts[i], l.starts[i + 1];
    assert EntryAt(l, data, i);
    StartsIncrease(l, data, i, i + 1);
    var tail := data[end..];
    assert block[start..restarts] == EntryBytes(item, shared) + tail by {
      assert data[start..] == data[start..end] + data[end..];
      assert block[start..restarts] == data[start..];
    }
    EntryDecodes(item, shared, tail);
    EntryEnds(item, shared);
    EntryParts(block, start, restarts, item, shared, tail);
    assert item.key == item.key[..shared] + item.key[shared..];
  }

  /** Where the rest of the key and the value of an entry are. */
  lemma EntryParts(block: Bytes, start: nat, restarts: nat, item: Item, shared: nat, tail: Bytes)
    requires start <= restarts <= |block| && Fits(item) && shared <= |item.key|
    requires block[start..restarts] == EntryBytes(item, shared) + tail
    ensures var p := restarts - |item.key[shared..] + item.value + tail|;
            var value := p + |item.key| - shared;
            && start <= p && value + |item.value| <= restarts
            && block[p..value] == item.key[shared..] && block[value..value + |item.value|] == item.value
  {
    hide EntryBytes;
    var rest := item.key[shared..] + item.value + tail;
    var p := restarts - |rest|;
    RestOfEntry(item, shared, tail);
    TailOfSlice(block, start, restarts, p - start);
    var n, v := |item.key| - shared, |item.value|;
    SliceOfSlice(block, p, restarts, 0, n);
    SliceOfSlice(block, p, restarts, n, n + v);
    assert rest[0..n] == item.key[shared..];
    assert rest[n..n + v] == item.value;
  }

  lemma EntryEnds(item: Item, shared: nat)
    requires Fits(item) && shared <= |item.key|
    ensures |EntryBytes(item, shared)| >= |item.key| - shared + |item.value|
  {
  }

  lemma RestOfEntry(item: Item, shared: nat, tail: Bytes)
    requires Fits(item) && shared <= |item.key|
    ensures var whole := EntryBytes(item, shared) + tail;
            var rest := item.key[shared..] + item.value + tail;
            |rest| <= |whole| && whole[|whole| - |rest|..] == rest
  {
    var lengths := Varint(shared) + Varint(|item.key| - shared) + Varint(|item.value|);
    assert EntryBytes(item, shared) + tail == lengths + (item.key[shared..] + item.value + tail);
  }

  lemma StartsByIndex(block: Bytes, restarts: nat, num: nat, l: Layout, i: nat, j: nat)
    requires Formed(block, restarts, num, l) && i <= |l.items| && j <= |l.items|
    ensures l.starts[i] < l.starts[j] <==> i < j
    ensures l.starts[i] <= restarts && (l.starts[i] == restarts <==> i == |l.items|)
  {
    hide EntryAt;
    if i < j {
      StartsIncrease(l, block[..restarts], i, j);
    } else {
      StartsIncrease(l, block[..restarts], j, i);
    }
    StartsIncrease(l, block[..restarts], i, |l.items|);
  }

  class Iter {
    const rank: Order
    const block: Bytes
    const restarts: nat
    const numRestarts: nat
    ghost const l: Layout
    /** Offset of the current entry; not before `restarts` when there is none. */
    var current: nat
    var restartIndex: nat
    var key: Bytes
    /** The value is a piece of the block. */
    var valueStart: nat
    var valueLength: nat
    /** Index of the current entry; the number of entries when there is none. */
    ghost var pos: nat

    ghost predicate Valid()
      reads this
    {
      && Formed(block, restarts, numRestarts, l) && Increasing(rank, l.items)
      && pos <= |l.items| && (pos == |l.items| ==> current == restarts)
      && (pos < |l.items| ==>
            StandsOn(block, l, pos, current, key, valueStart, valueStart + valueLength) && InRestart(l, restartIndex, pos))
    }

    constructor (rank: Order, block: Bytes, restarts: nat, numRestarts: nat, ghost l: Layout)
      requires Formed(block, restarts, numRestarts, l) && Increasing(rank, l.items)
      ensures Valid() && pos == |l.items| && this.l == l && this.rank == rank && this.block == block
    {
      this.rank, this.block, this.restarts, this.numRestarts, this.l := rank, block, restarts, numRestarts, l;
      current, restartIndex := restarts, numRestarts;
      key, valueStart, valueLength, pos := [], 0, 0, |l.items|;
    }

    predicate IsValid()
      requires Valid()
      reads this
      ensures IsValid() <==> pos < |l.items|
    {
      StartsByIndex(block, restarts, numRestarts, l, pos, pos);
      current < restarts
    }

    function Current(): (item: Item)
      requires Valid() && IsValid()
      reads this
      ensures item == l.items[pos]
    {
      Item(key, block[valueStart..valueStart + valueLength])
    }

    method SeekToRestartPoint(index: nat)
      requires Formed(block, restarts, numRestarts, l) && index < numRestarts
      modifies this
      ensures Before(l, l.at[index], key, valueStart + valueLength) && InRestart(l, index, l.at[index]) && restartIndex == index
      ensures pos == old(pos) && current == old(current)
    {
      hide Before, InRestart;
      RestartIsBefore(block, restarts, numRestarts, l, index);
      key := [];
      restartIndex := index;
      valueStart, valueLength := RestartPoint(block, restarts, index), 0;
    }

    /** Decodes the entry that begins where the last one ended. */
    method ParseNextKey(ghost i: nat) returns (more: bool)
      requires Formed(block, restarts, numRestarts, l) && Increasing(rank, l.items)
      requires Before(l, i, key, valueStart + valueLength)
      requires restartIndex < numRestarts && l.at[restartIndex] <= i
      modifies this
      ensures Valid() && pos == i && (more <==> i < |l.items|)
    {
      hide Formed, Before, StandsOn, InRestart, Increasing, RestartPoint, DecodeHeader;
      BeforeStarts(l, i, key, valueStart + valueLength);
      StartsByIndex(block, restarts, numRestarts, l, i, i);
      current := valueStart + valueLength;
      pos := i;
      if current >= restarts {
        current := restarts;
        restartIndex := numRestarts;
        return false;
      }
      InBlock(block, restarts, numRestarts, l);
      EntryParses(block, restarts, numRestarts, l, i, key);
      var r := DecodeEntry(block[current..restarts]);
      var p := restarts - |r.rest|;
      key := key[..r.value.shared] + block[p..p + r.value.nonShared];
      valueStart, valueLength := p + r.value.nonShared, r.value.valueLength;
      restartIndex := AdvanceRestart(restartIndex, current, i);
      return true;
    }

    method AdvanceRestart(from: nat, current: nat, ghost i: nat) returns (index: nat)
      requires Formed(block, restarts, numRestarts, l)
      requires i < |l.items| && current == l.starts[i]
      requires from < numRestarts && l.at[from] <= i
      ensures InRestart(l, index, i)
    {
      hide EntryAt, Entries;
      index := from;
      while index + 1 < numRestarts && RestartPoint(block, restarts, index + 1) < current
        invariant index < numRestarts && l.at[index] <= i
      {
        StartsByIndex(block, restarts, numRestarts, l, l.at[index + 1], i);
        index := index + 1;
      }
      if index + 1 < numRestarts {
        StartsByIndex(block, restarts, numRestarts, l, l.at[index + 1], i);
      }
    }

    /** The last restart point before the entry at `original`, going back from `from`. */
    method RestartBefore(from: nat, original: nat, ghost i: nat) returns (index: nat, found: bool)
      requires Formed(block, restarts, numRestarts, l)
      requires i < |l.items| && original == l.starts[i] && from < numRestarts && l.at[from] <= i
      ensures found ==> index < numRestarts && l.at[index] < i
      ensures !found ==> i == 0
    {
      hide EntryAt, Entries;
      index := from;
      StartsByIndex(block, restarts, numRestarts, l, l.at[index], i);
      while RestartPoint(block, restarts, index) >= original
        invariant index < numRestarts && l.at[index] <= i
        invariant l.at[index] < |l.starts| && (l.starts[l.at[index]] < original <==> l.at[index] < i)
        decreases index
      {
        if index == 0 {
          return index, false;
        }
        index := index - 1;
        StartsByIndex(block, restarts, numRestarts, l, l.at[index], i);
      }
      return index, true;
    }

    /** Decodes entries from entry `i` on until one ends where entry `target + 1` begins. */
    method ScanUpTo(original: nat, ghost i: nat, ghost target: nat)
      requires Formed(block, restarts, numRestarts, l) && Increasing(rank, l.items)
      requires Before(l, i, key, valueStart + valueLength)
      requires restartIndex < numRestarts && l.at[restartIndex] <= i
      requires if l.items == [] then i == 0 else i <= target < |l.items| && original == l.starts[target + 1]
      modifies this
      ensures Valid() && pos == if l.items == [] then 0 else target
    {
      hide Formed, Before, StandsOn, InRestart, Increasing;
      var more := ParseNextKey(i);
      if more {
        EntryEnd(block, restarts, numRestarts, l, pos, current, key, valueStart, valueStart + valueLength);
        StartsByIndex(block, restarts, numRestarts, l, pos + 1, target + 1);
      }
      while more && valueStart + valueLength < original
        invariant Valid() && (more <==> l.items != []) && (!more ==> pos == 0)
        invariant more ==> pos <= target && valueStart + valueLength == l.starts[pos + 1]
        invariant more ==> (l.starts[pos + 1] < l.starts[target + 1] <==> pos < target)
        decreases target - pos
      {
        more := StepOn();
        EntryEnd(block, restarts, numRestarts, l, pos, current, key, valueStart, valueStart + valueLength);
        StartsByIndex(block, restarts, numRestarts, l, pos + 1, target + 1);
      }
    }

    /** Decodes the entry after the current one. */
    method StepOn() returns (more: bool)
      requires Valid() && IsValid()
      modifies this
      ensures Valid() && pos == old(pos) + 1 && (more <==> pos < |l.items|)
    {
      hide Formed, Before, StandsOn, Increasing;
      StandingIsBefore(block, restarts, numRestarts, l, pos, current, key, valueStart, valueStart + valueLength);
      InBlock(block, restarts, numRestarts, l);
      more := ParseNextKey(pos + 1);
    }

    method Next()
      requires Valid() && IsValid()
      modifies this
      ensures Valid() && pos == old(pos) + 1
    {
      hide Formed, Before, StandsOn, Increasing;
      var _ := StepOn();
    }

    method Prev()
      requires Valid() && IsValid()
      modifies this
      ensures Valid() && pos == if old(pos) == 0 then |l.items| else old(pos) - 1
    {
      hide Before, StandsOn, Increasing, Entries, RestartPoint;
      var original := current;
      AtStart(block, restarts, numRestarts, l, pos, current, key, valueStart, valueStart + valueLength);
      var index, found := RestartBefore(restartIndex, original, pos);
      if !found {
        current := restarts;
        restartIndex := numRestarts;
        pos := |l.items|;
        return;
      }
      ghost var target := pos - 1;
      SeekToRestartPoint(index);
      ScanUpTo(original, l.at[index], target);
    }

    method SeekToFirst()
      requires Valid()
      modifies this
      ensures Valid() && pos == 0
    {
      hide Before, StandsOn, Increasing, RestartPoint;
      InBlock(block, restarts, numRestarts, l);
      SeekToRestartPoint(0);
      var _ := ParseNextKey(0);
    }

    method SeekToLast()
      requires Valid()
      modifies this
      ensures Valid() && pos == if |l.items| == 0 then 0 else |l.items| - 1
    {
      hide Before, StandsOn, Increasing, RestartPoint, EntryAt;
      InBlock(block, restarts, numRestarts, l);
      SeekToRestartPoint(numRestarts - 1);
      ScanUpTo(restarts, l.at[numRestarts - 1], if l.items == [] then 0 else |l.items| - 1);
    }

    /** The last restart point whose key is before the target, or the first one. */
    method FindRestart(target: Bytes) returns (left: nat)
      requires Valid()
      ensures left < numRestarts
      ensures forall i :: 0 <= i < l.at[left] ==> rank(l.items[i].key) < rank(target)
      ensures l.at[left] < |l.items| && left > 0 ==> rank(l.items[l.at[left]].key) < rank(target)
    {
      hide StandsOn, InRestart, DecodeHeader, RestartPoint, EntryAt, Entries;
      left := 0;
      var right := numRestarts - 1;
      while left < right
        invariant 0 <= left <= right < numRestarts
        invariant left > 0 ==> l.at[left] < |l.items| && rank(l.items[l.at[left]].key) < rank(target)
      {
        var mid := (left + right + 1) / 2;
        var regionOffset := RestartPoint(block, restarts, mid);
        RestartKey(block, restarts, numRestarts, l, mid);
        var r := DecodeEntry(block[regionOffset..restarts]);
        var p := restarts - |r.rest|;
        var midKey := block[p..p + r.value.nonShared];
        if rank(midKey) < rank(target) {
          left := mid;
        } else {
          right := mid - 1;
        }
      }
      if left > 0 {
        KeysBefore(rank, l.items, l.at[left], target);
      }
    }

    /** To the first entry whose key is not before the target. */
    method Seek(target: Bytes)
      requires Valid()
      modifies this
      ensures Valid() && forall i :: 0 <= i < pos ==> rank(l.items[i].key) < rank(target)
      ensures pos < |l.items| ==> rank(l.items[pos].key) >= rank(target)
    {
      hide Formed, Before, StandsOn, InRestart, Increasing;
      InBlock(block, restarts, numRestarts, l);
      var left := FindRestart(target);
      SeekToRestartPoint(left);
      RestartInRange(block, restarts, numRestarts, l, left);
      var more := ParseNextKey(l.at[left]);
      while more && rank(key) < rank(target)
        invariant Valid() && (more <==> pos < |l.items|)
        invariant forall i :: 0 <= i < pos ==> rank(l.items[i].key) < rank(target)
        decreases |l.items| - pos
      {
        KeyIs(block, l, pos, current, key, valueStart, valueStart + valueLength);
        more := StepOn();
      }
      if more {
        KeyIs(block, l, pos, current, key, valueStart, valueStart + valueLength);
      }
    }
  }

  lemma KeyIs(block: Bytes, l: Layout, i: nat, current: nat, key: Bytes, valueStart: nat, valueEnd: nat)
    requires StandsOn(block, l, i, current, key, valueStart, valueEnd)
    ensures key == l.items[i].key
  {
  }

  lemma RestartInRange(block: Bytes, restarts: nat, num: nat, l: Layout, index: nat)
    requires Formed(block, restarts, num, l) && index < num
    ensures l.at[index] <= |l.items|
  {
  }

  lemma KeysBefore(rank: Order, items: seq<Item>, k: nat, target: Bytes)
    requires Increasing(rank, items) && k < |items| && rank(items[k].key) < rank(target)
    ensures forall i :: 0 <= i <= k ==> rank(items[i].key) < rank(target)
  {
  }

  /** The key at a restart point is there in full. */
  lemma RestartKey(block: Bytes, restarts: nat, num: nat, l: Layout, index: nat)
    requires Formed(block, restarts, num, l) && 0 < index < num
    ensures l.at[index] < |l.items| && RestartPoint(block, restarts, index) < restarts <= |block|
    ensures var r := DecodeHeader(block[RestartPoint(block, restarts, index)..restarts]);
            && r.Parsed? && r.value.shared == 0
            && var p := restarts - |r.rest|;
               block[p..p + r.value.nonShared] == l.items[l.at[index]].key
  {
    hide EntryAt, Entries, DecodeHeader;
    RestartIsBefore(block, restarts, num, l, index);
    EntryParses(block, restarts, num, l, l.at[index], []);
  }

  lemma BeforeStarts(l: Layout, i: nat, key: Bytes, offset: nat)
    requires Before(l, i, key, offset)
    ensures i <= |l.items| && |l.starts| == |l.items| + 1 && offset == l.starts[i]
  {
  }

  lemma InBlock(block: Bytes, restarts: nat, num: nat, l: Layout)
    requires Formed(block, restarts, num, l)
    ensures restarts + 4 * num + 4 == |block| && |l.at| == num && num > 0
    ensures l.at[0] == 0
  {
  }

  lemma AtStart(block: Bytes, restarts: nat, num: nat, l: Layout, i: nat, current: nat, key: Bytes, valueStart: nat, valueEnd: nat)
    requires Formed(block, restarts, num, l) && StandsOn(block, l, i, current, key, valueStart, valueEnd)
    ensures i < |l.items| && |l.starts| == |l.items| + 1 && current == l.starts[i] < restarts
  {
    StartsByIndex(block, restarts, num, l, i, i);
  }

  lemma EntryEnd(block: Bytes, restarts: nat, num: nat, l: Layout, i: nat, current: nat, key: Bytes, valueStart: nat, valueEnd: nat)
    requires StandsOn(block, l, i, current, key, valueStart, valueEnd)
    ensures i < |l.items| && |l.starts| == |l.items| + 1 && valueEnd == l.starts[i + 1]
  {
  }

  /** An upper bound on what the entries take up. */
  function SizeBound(items: seq<Item>): nat {
    if items == [] then 0
    else SizeBound(items[..|items| - 1]) + |items[|items| - 1].key| + |items[|items| - 1].value| + 15
  }

  lemma {:induction false} SizeBoundGrows(items: seq<Item>, i: nat)
    requires i <= |items|
    ensures SizeBound(items[..i]) <= SizeBound(items)
    ensures forall j :: 0 <= j < i ==> |items[j].key| + |items[j].value| <= SizeBound(items)
    decreases |items|
  {
    if i == |items| {
      assert items[..i] == items;
      if i > 0 {
        var shorter := items[..i - 1];
        SizeBoundGrows(shorter, i - 1);
        assert shorter[..i - 1] == shorter;
        assert forall j :: 0 <= j < i - 1 ==> items[j] == shorter[j];
      }
    } else {
      var shorter := items[..|items| - 1];
      SizeBoundGrows(shorter, i);
      assert shorter[..i] == items[..i];
      assert forall j :: 0 <= j < i ==> items[j] == shorter[j];
    }
  }

  /** Any increasing list of entries that fits, under any restart interval, makes a block that opens. */
  method WriteBlock(rank: Order, interval: nat, items: seq<Item>) returns (block: Bytes, ghost l: Layout)
    requires interval >= 1 && Increasing(rank, items)
    requires SizeBound(items) < TWO_32 && |items| + 1 < TWO_32
    ensures l.items == items
    ensures Shape(block).Some? && Formed(block, Shape(block).value.0, Shape(block).value.1, l)
  {
    hide Built, Formed, Shape, BlockBytes;
    var b := new BlockBuilder(rank, interval);
    for i := 0 to |items|
      invariant b.Valid() && !b.finished && b.l.items == items[..i] && fresh(b) && b.rank == rank
      invariant |b.buffer| <= SizeBound(items[..i])
    {
      PrefixAppend(items, i);
      assert items[..i + 1][..i] == items[..i];
      SizeBoundGrows(items, i + 1);
      LastKey(rank, interval, b.l, b.buffer, b.restarts, b.counter, items, i);
      b.Add(items[i].key, items[i].value);
    }
    WholePrefix(items);
    BuiltParts(rank, b.interval, b.l, b.buffer, b.restarts, b.counter);
    FinishedOpens(b.buffer, b.restarts, b.l);
    l := b.l;
    block := b.Finish();
  }

  lemma LastKey(rank: Order, interval: nat, l: Layout, data: Bytes, restarts: seq<nat>, counter: nat, items: seq<Item>, i: nat)
    requires i < |items| && Increasing(rank, items) && l.items == items[..i]
    requires Built(rank, interval, l, data, restarts, counter)
    ensures data == [] || rank(KeyBefore(l, |l.items|)) < rank(items[i].key)
  {
    hide EntryAt, CommonPrefix;
  }

  lemma BuiltParts(rank: Order, interval: nat, l: Layout, data: Bytes, restarts: seq<nat>, counter: nat)
    requires Built(rank, interval, l, data, restarts, counter)
    ensures Entries(l, data) && RestartsAt(l) && Offsets(l, restarts) && |restarts| <= |l.items| + 1
  {
    hide EntryAt, CommonPrefix, EveryInterval, SharesAll;
    RestartCount(l, |l.at| - 1);
  }

  lemma {:induction false} RestartCount(l: Layout, r: nat)
    requires RestartsAt(l) && r < |l.at|
    ensures r <= l.at[r]
  {
    if r > 0 {
      RestartCount(l, r - 1);
    }
  }

  /** Reading the block from its first entry to its last gives back the list. */
  method ReadBlock(rank: Order, block: Bytes, ghost l: Layout) returns (items: seq<Item>)
    requires Increasing(rank, l.items)
    requires Shape(block).Some? && Formed(block, Shape(block).value.0, Shape(block).value.1, l)
    ensures items == l.items
  {
    hide Formed, Shape, StandsOn, InRestart, Increasing;
    var shape := Shape(block).value;
    var it := new Iter(rank, block, shape.0, shape.1, l);
    it.SeekToFirst();
    items := [];
    while it.IsValid()
      invariant it.Valid() && it.l == l && items == l.items[..it.pos] && fresh(it)
      decreases |l.items| - it.pos
    {
      PrefixAppend(l.items, it.pos);
      items := items + [it.Current()];
      it.Next();
    }
    WholePrefix(l.items);
  }
}
