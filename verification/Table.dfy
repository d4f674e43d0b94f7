/** Tables: data blocks under an index of separators (table/table_builder.cc, table/table.cc,
    table/two_level_iterator.cc). */
module Table {
  import opened Keys
  import opened Sequences
  import opened Separators
  import opened Bloom
  import opened FilterBlock

  ghost function Offset<T>(blocks: seq<seq<T>>, i: nat): nat
    requires i <= |blocks|
  {
    |Concat(blocks[..i])|
  }

  lemma {:induction false} ConcatAt<T>(blocks: seq<seq<T>>, i: nat)
    requires i < |blocks|
    ensures Offset(blocks, i) + |blocks[i]| == Offset(blocks, i + 1) <= |Concat(blocks)|
    ensures Concat(blocks)[Offset(blocks, i)..Offset(blocks, i + 1)] == blocks[i]
    decreases |blocks|
  {
    var shorter := blocks[..|blocks| - 1];
    assert blocks[..i + 1][..i] == blocks[..i];
    if i == |shorter| {
      assert blocks[..i + 1] == blocks;
    } else {
      ConcatAt(shorter, i);
      assert shorter[..i] == blocks[..i] && shorter[..i + 1] == blocks[..i + 1];
    }
  }

  lemma OffsetEnds<T>(blocks: seq<seq<T>>)
    ensures Offset(blocks, 0) == 0 && Offset(blocks, |blocks|) == |Concat(blocks)|
  {
    assert blocks[..|blocks|] == blocks;
  }

  lemma InConcat<T>(blocks: seq<seq<T>>, i: nat, p: nat)
    requires i < |blocks| && p < |blocks[i]|
    ensures Offset(blocks, i) + p < |Concat(blocks)| && Concat(blocks)[Offset(blocks, i) + p] == blocks[i][p]
  {
    ConcatAt(blocks, i);
    assert Concat(blocks)[Offset(blocks, i)..Offset(blocks, i + 1)][p] == blocks[i][p];
  }

  lemma {:induction false} OffsetsGrow<T>(blocks: seq<seq<T>>, i: nat, j: nat)
    requires i <= j <= |blocks|
    ensures Offset(blocks, i) <= Offset(blocks, j)
    decreases j
  {
    if i < j {
      ConcatAt(blocks, j - 1);
      OffsetsGrow(blocks, i, j - 1);
    }
  }

  /** Which block an offset is in. */
  lemma {:induction false} BlockOf<T>(blocks: seq<seq<T>>, q: nat) returns (i: nat)
    requires q < |Concat(blocks)|
    ensures i < |blocks| && Offset(blocks, i) <= q < Offset(blocks, i + 1)
    decreases |blocks|
  {
    var shorter := blocks[..|blocks| - 1];
    OffsetEnds(blocks);
    if q >= |Concat(shorter)| {
      i := |shorter|;
    } else {
      i := BlockOf(shorter, q);
      assert shorter[..i] == blocks[..i] && shorter[..i + 1] == blocks[..i + 1];
    }
  }

  /** Every index key is at or after all entries of its block and before all entries of later blocks. */
  ghost predicate Bounds(index: seq<InternalKey>, blocks: seq<seq<Entry>>) {
    && |index| == |blocks|
    && (forall i, e :: 0 <= i < |blocks| && e in blocks[i] ==> !Less(index[i], e.key))
    && (forall i, j, e :: 0 <= i < j < |blocks| && e in blocks[j] ==> Less(index[i], e.key))
  }

  /** What a table builder leaves: no empty block, and separators made by the comparator. */
  ghost predicate Indexed(index: seq<InternalKey>, blocks: seq<seq<Entry>>) {
    && |index| == |blocks|
    && (forall i :: 0 <= i < |blocks| ==> blocks[i] != [])
    && (forall i, j :: 0 <= i < |blocks| && j == i + 1 && j < |blocks| ==>
          Between(Last(blocks[i]), index[i], First(blocks[j])))
    && (blocks != [] ==> AtOrAfter(index[|blocks| - 1], Last(blocks[|blocks| - 1])))
  }

  ghost predicate AtOrAfter(r: InternalKey, key: InternalKey) {
    r == key || key.user < r.user
  }

  function First(block: seq<Entry>): InternalKey
    requires block != []
  {
    block[0].key
  }

  function Last(block: seq<Entry>): InternalKey
    requires block != []
  {
    block[|block| - 1].key
  }

  /** In a sorted table, entries of earlier blocks come first. */
  lemma BlocksInOrder(blocks: seq<seq<Entry>>, i: nat, p: nat, j: nat, q: nat)
    requires Sorted(Concat(blocks))
    requires i < |blocks| && p < |blocks[i]| && j < |blocks| && q < |blocks[j]|
    requires i < j || (i == j && p < q)
    ensures Less(blocks[i][p].key, blocks[j][q].key)
  {
    InConcat(blocks, i, p);
    InConcat(blocks, j, q);
    if i < j {
      ConcatAt(blocks, i);
      OffsetsGrow(blocks, i + 1, j);
    }
  }

  lemma BlockSorted(blocks: seq<seq<Entry>>, i: nat)
    requires Sorted(Concat(blocks)) && i < |blocks|
    ensures Sorted(blocks[i])
  {
    forall p, q | 0 <= p < q < |blocks[i]| ensures Less(blocks[i][p].key, blocks[i][q].key) {
      BlocksInOrder(blocks, i, p, i, q);
    }
  }

  /** The separators bound their blocks, and so they strictly increase. */
  lemma IndexBounds(index: seq<InternalKey>, blocks: seq<seq<Entry>>)
    requires Indexed(index, blocks) && Sorted(Concat(blocks))
    ensures Bounds(index, blocks)
    ensures forall i, j :: 0 <= i < j < |index| ==> Less(index[i], index[j])
  {
    hide Sorted, Concat;
    forall i, e | 0 <= i < |blocks| && e in blocks[i] ensures !Less(index[i], e.key) {
      var p :| 0 <= p < |blocks[i]| && blocks[i][p] == e;
      if p < |blocks[i]| - 1 {
        BlocksInOrder(blocks, i, p, i, |blocks[i]| - 1);
      }
      assert i + 1 < |blocks| ==> Between(Last(blocks[i]), index[i], First(blocks[i + 1]));
    }
    forall i, j, e | 0 <= i < j < |blocks| && e in blocks[j] ensures Less(index[i], e.key) {
      var q :| 0 <= q < |blocks[j]| && blocks[j][q] == e;
      var n := i + 1;
      assert Between(Last(blocks[i]), index[i], First(blocks[n]));
      if n < j || q > 0 {
        BlocksInOrder(blocks, n, 0, j, q);
      }
      BlocksInOrder(blocks, i, |blocks[i]| - 1, n, 0);
    }
    forall i, j | 0 <= i < j < |index| ensures Less(index[i], index[j]) {
      var e := blocks[j][0];
      assert e in blocks[j] && Less(index[i], e.key) && !Less(index[j], e.key);
    }
  }

  /** The first index key at or after `k`. */
  function SeekIndexKey(index: seq<InternalKey>, k: InternalKey): (r: nat)
    ensures r <= |index|
    ensures forall i :: 0 <= i < r ==> Less(index[i], k)
    ensures r < |index| ==> !Less(index[r], k)
  {
    if index == [] || !Less(index[0], k) then 0
    else
      var rest := SeekIndexKey(index[1..], k);
      assert forall i :: 0 < i < rest + 1 ==> index[i] == index[1..][i - 1];
      rest + 1
  }

  /** Where a search in the whole table ends, seen from the block the index leads to. */
  lemma SeekLandsInBlock(index: seq<InternalKey>, blocks: seq<seq<Entry>>, k: InternalKey)
    requires Bounds(index, blocks) && Sorted(Concat(blocks))
    ensures var b := SeekIndexKey(index, k);
            SeekIndex(Concat(blocks), k) == Offset(blocks, b) + if b < |blocks| then SeekIndex(blocks[b], k) else 0
  {
    hide Concat, SeekIndex;
    var b := SeekIndexKey(index, k);
    OffsetEnds(blocks);
    var q := Offset(blocks, b) + if b < |blocks| then SeekIndex(blocks[b], k) else 0;
    if b < |blocks| {
      ConcatAt(blocks, b);
      SeekIndexFacts(blocks[b], k);
    }
    forall x | 0 <= x < |Concat(blocks)| ensures x < q <==> Less(Concat(blocks)[x].key, k) {
      SideOfBlock(index, blocks, k, x);
    }
    SeekUnique(Concat(blocks), k, q);
  }

  lemma SideOfBlock(index: seq<InternalKey>, blocks: seq<seq<Entry>>, k: InternalKey, x: nat)
    requires Bounds(index, blocks) && Sorted(Concat(blocks)) && x < |Concat(blocks)|
    ensures var b := SeekIndexKey(index, k);
            var q := Offset(blocks, b) + if b < |blocks| then SeekIndex(blocks[b], k) else 0;
            x < q <==> Less(Concat(blocks)[x].key, k)
  {
    hide Concat, SeekIndex, SeekIndexKey, Offset, Sorted, Bounds;
    var b := SeekIndexKey(index, k);
    var i := BlockOf(blocks, x);
    var p := x - Offset(blocks, i);
    ConcatAt(blocks, i);
    InConcat(blocks, i, p);
    SideOfIndex(index, blocks, k, i, p);
    if i < b {
      OffsetsGrow(blocks, i + 1, b);
    } else if i > b {
      OffsetsGrow(blocks, b + 1, i);
      ConcatAt(blocks, b);
      SeekIndexFacts(blocks[b], k);
    } else {
      BlockSorted(blocks, b);
      SeekSplits(blocks[b], k, p);
    }
  }

  lemma SideOfIndex(index: seq<InternalKey>, blocks: seq<seq<Entry>>, k: InternalKey, i: nat, p: nat)
    requires Bounds(index, blocks) && i < |blocks| && p < |blocks[i]|
    ensures SeekIndexKey(index, k) <= |blocks|
    ensures i < SeekIndexKey(index, k) ==> Less(blocks[i][p].key, k)
    ensures i > SeekIndexKey(index, k) ==> !Less(blocks[i][p].key, k)
  {
    var e := blocks[i][p];
    assert e in blocks[i];
  }

  lemma SeekIndexFacts(es: seq<Entry>, k: InternalKey)
    ensures SeekIndex(es, k) <= |es|
  {
  }

  lemma SeekSplits(es: seq<Entry>, k: InternalKey, p: nat)
    requires Sorted(es) && p < |es|
    ensures p < SeekIndex(es, k) <==> Less(es[p].key, k)
  {
    var s := SeekIndex(es, k);
    assert s < p ==> Less(es[s].key, es[p].key);
  }

  lemma SeekUnique(es: seq<Entry>, k: InternalKey, q: nat)
    requires q <= |es| && forall x :: 0 <= x < |es| ==> (x < q <==> Less(es[x].key, k))
    ensures SeekIndex(es, k) == q
  {
    var s := SeekIndex(es, k);
    if s < |es| {
      assert s < q <==> Less(es[s].key, k);
    }
    if q < |es| {
      assert !Less(es[q].key, k);
    }
  }

  /** The filter block rules out no key of a block. */
  ghost predicate FilterAdmits(policy: BloomFilterPolicy, contents: Bytes, offsets: seq<nat>, blocks: seq<seq<Entry>>) {
    && |offsets| == |blocks|
    && forall b, e, user :: 0 <= b < |blocks| && e in blocks[b] && e.key.user == Rank(user) ==>
         ReaderMayMatch(policy, contents, offsets[b], user)
  }

  /** Looks into the one block that the index leads to, unless the filter rules the key out; then no block is read. */
  method InternalGet(index: seq<InternalKey>, blocks: seq<seq<Entry>>, offsets: seq<nat>, filter: FilterBlockReader?,
                     k: InternalKey, user: Bytes) returns (r: Option<Entry>, block: Option<nat>)
    requires Indexed(index, blocks) && Sorted(Concat(blocks)) && k.user == Rank(user) && |offsets| == |blocks|
    requires filter != null ==> filter.Valid() && FilterAdmits(filter.policy, filter.data, offsets, blocks)
    ensures var f := SeekIndex(Concat(blocks), k);
            && (r.Some? ==> f < |Concat(blocks)| && r == Some(Concat(blocks)[f]))
            && (f < |Concat(blocks)| && Concat(blocks)[f].key.user == k.user ==> r == Some(Concat(blocks)[f]))
    ensures var b := SeekIndexKey(index, k);
            && |index| == |blocks| && (block.None? ==> r.None?)
            && block == if b < |index| && (filter != null ==> ReaderMayMatch(filter.policy, filter.data, offsets[b], user))
                        then Some(b) else None
    ensures block.Some? ==>
              var p := SeekIndex(blocks[block.value], k);
              r == if p < |blocks[block.value]| then Some(blocks[block.value][p]) else None
  {
    hide Indexed, Sorted, Concat, Bounds, SeekIndex, Rank, ReaderMayMatch;
    r, block := None, None;
    IndexBounds(index, blocks);
    SeekLandsInBlock(index, blocks, k);
    OffsetEnds(blocks);
    var b := SeekIndexKey(index, k);
    SameLength(index, blocks);
    if b < |index| {
      NextBlockIsAnother(index, blocks, k);
      var mayMatch := true;
      if filter != null {
        mayMatch := filter.KeyMayMatch(offsets[b], user);
      }
      if !mayMatch {
        FoundIsInBlock(blocks, b, k);
      } else {
        block := Some(b);
        var p := SeekIndex(blocks[b], k);
        SeekIndexFacts(blocks[b], k);
        if p < |blocks[b]| {
          InConcat(blocks, b, p);
          r := Some(blocks[b][p]);
        }
      }
    }
  }

  lemma SameLength(index: seq<InternalKey>, blocks: seq<seq<Entry>>)
    requires Indexed(index, blocks)
    ensures |index| == |blocks|
  {
  }

  lemma FoundIsInBlock(blocks: seq<seq<Entry>>, b: nat, k: InternalKey)
    requires b < |blocks|
    ensures var p := SeekIndex(blocks[b], k);
            p < |blocks[b]| ==> blocks[b][p] in blocks[b] && Offset(blocks, b) + p < |Concat(blocks)|
                                && Concat(blocks)[Offset(blocks, b) + p] == blocks[b][p]
  {
    var p := SeekIndex(blocks[b], k);
    if p < |blocks[b]| {
      InConcat(blocks, b, p);
    }
  }

  /** If the block has nothing at or after `k`, the table's next entry is of a later user key. */
  lemma NextBlockIsAnother(index: seq<InternalKey>, blocks: seq<seq<Entry>>, k: InternalKey)
    requires Indexed(index, blocks) && Sorted(Concat(blocks)) && SeekIndexKey(index, k) < |index|
    ensures var b := SeekIndexKey(index, k);
            var f := Offset(blocks, b) + SeekIndex(blocks[b], k);
            SeekIndex(blocks[b], k) == |blocks[b]| && f < |Concat(blocks)| ==> Concat(blocks)[f].key.user > k.user
  {
    hide Sorted, Concat;
    var b := SeekIndexKey(index, k);
    var f := Offset(blocks, b) + SeekIndex(blocks[b], k);
    ConcatAt(blocks, b);
    OffsetEnds(blocks);
    if SeekIndex(blocks[b], k) == |blocks[b]| && f < |Concat(blocks)| {
      assert Less(Last(blocks[b]), k);
      var n := b + 1;
      InConcat(blocks, n, 0);
      assert Between(Last(blocks[b]), index[b], First(blocks[n]));
    }
  }
}
