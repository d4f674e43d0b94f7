/** Building a table: the index entry of a block waits for the first key of the next one
    (table/table_builder.cc). */
module TableBuilding {
  import opened Keys
  import opened Separators
  import opened Table
  import opened Bloom
  import opened FilterBlock
  import opened Sequences
  import opened Coding

  /** Where a block is in the file. */
  datatype BlockHandle = BlockHandle(offset: nat, size: nat)

  const BLOCK_TRAILER_SIZE: nat := 5

  /** `es` is the block `bytes` with every user key at its place in the order. */
  ghost predicate Mirrors(bytes: seq<ByteEntry>, es: seq<Entry>) {
    |bytes| == |es| && forall i :: 0 <= i < |es| ==> es[i] == RankedEntry(bytes[i])
  }

  /** The first key at or after the end of block `i`. */
  ghost function NextFirst(blocks: seq<seq<Entry>>, data: seq<Entry>, i: nat): InternalKey
    requires i < |blocks| && (forall j :: 0 <= j < |blocks| ==> blocks[j] != []) && (i + 1 == |blocks| ==> data != [])
  {
    if i + 1 < |blocks| then First(blocks[i + 1]) else First(data)
  }

  /** The state between two additions. Only the last block can be without its separator, and only until
      the next key arrives. */
  ghost predicate Cut(separators: seq<InternalKey>, blocks: seq<seq<Entry>>, data: seq<Entry>, pending: bool, last: InternalKey) {
    && (forall i :: 0 <= i < |blocks| ==> blocks[i] != [])
    && (pending ==> blocks != [] && data == [] && last == Last(blocks[|blocks| - 1]))
    && (!pending && blocks != [] ==> data != [])
    && (data != [] ==> last == Last(data))
    && |separators| == |blocks| - (if pending then 1 else 0)
    && (forall i :: 0 <= i < |separators| ==> Between(Last(blocks[i]), separators[i], NextFirst(blocks, data, i)))
  }

  lemma SeparatorGoesIn(separators: seq<InternalKey>, blocks: seq<seq<Entry>>, last: InternalKey, r: InternalKey, e: Entry)
    requires Cut(separators, blocks, [], true, last) && Between(last, r, e.key)
    ensures Cut(separators + [r], blocks, [e], false, e.key)
  {
    var separators1 := separators + [r];
    forall i | 0 <= i < |separators1| ensures Between(Last(blocks[i]), separators1[i], NextFirst(blocks, [e], i)) {
      assert i < |separators| ==> NextFirst(blocks, [e], i) == First(blocks[i + 1]);
    }
  }

  lemma EntryGoesIn(separators: seq<InternalKey>, blocks: seq<seq<Entry>>, data: seq<Entry>, last: InternalKey, e: Entry)
    requires Cut(separators, blocks, data, false, last)
    ensures Cut(separators, blocks, data + [e], false, e.key)
  {
    forall i | 0 <= i < |separators| ensures Between(Last(blocks[i]), separators[i], NextFirst(blocks, data + [e], i)) {
      assert NextFirst(blocks, data + [e], i) == NextFirst(blocks, data, i);
    }
  }

  lemma BlockIsCut(separators: seq<InternalKey>, blocks: seq<seq<Entry>>, data: seq<Entry>, last: InternalKey)
    requires Cut(separators, blocks, data, false, last) && data != []
    ensures Cut(separators, blocks + [data], [], true, last)
    ensures Concat(blocks + [data]) == Concat(blocks) + data
  {
    var blocks1 := blocks + [data];
    assert blocks1[..|blocks|] == blocks;
    forall i | 0 <= i < |separators| ensures Between(Last(blocks1[i]), separators[i], NextFirst(blocks1, [], i)) {
      assert NextFirst(blocks1, [], i) == NextFirst(blocks, data, i);
    }
  }

  lemma LastSeparator(separators: seq<InternalKey>, blocks: seq<seq<Entry>>, last: InternalKey, r: InternalKey)
    requires Cut(separators, blocks, [], true, last) && AtOrAfter(r, last)
    ensures Indexed(separators + [r], blocks)
  {
    forall i, j | 0 <= i < |blocks| && j == i + 1 && j < |blocks|
      ensures Between(Last(blocks[i]), (separators + [r])[i], First(blocks[j]))
    {
      assert NextFirst(blocks, [], i) == First(blocks[j]);
    }
  }

  function HandleOf(sizeOf: seq<ByteEntry> -> nat, block: (nat, seq<ByteEntry>)): BlockHandle {
    BlockHandle(block.0, sizeOf(block.1))
  }

  /** Each block starts where the one before it ends, five bytes of trailer after its contents. */
  ghost predicate Contiguous(sizeOf: seq<ByteEntry> -> nat, file: seq<(nat, seq<ByteEntry>)>, offset: nat) {
    && (if file == [] then offset == 0 else file[0].0 == 0 && offset == file[|file| - 1].0 + sizeOf(file[|file| - 1].1) + 5)
    && forall i, j :: 0 <= i && j == i + 1 && j < |file| ==> file[j].0 == file[i].0 + sizeOf(file[i].1) + 5
  }

  /** The file holds the blocks in order at growing offsets, and every index entry says where its block is. */
  ghost predicate HandlesOk(sizeOf: seq<ByteEntry> -> nat, file: seq<(nat, seq<ByteEntry>)>, offset: nat,
                            indexBlock: seq<(ByteKey, BlockHandle)>, blocks: seq<seq<Entry>>, separators: seq<InternalKey>) {
    && |file| == |blocks| && |indexBlock| == |separators| <= |file|
    && (forall i :: 0 <= i < |file| ==> Mirrors(file[i].1, blocks[i]) && file[i].0 < offset)
    && Contiguous(sizeOf, file, offset)
    && (forall i, j :: 0 <= i < j < |file| ==> file[i].0 < file[j].0)
    && (forall i :: 0 <= i < |indexBlock| ==>
          Ranked(indexBlock[i].0) == separators[i] && indexBlock[i].1 == HandleOf(sizeOf, file[i]))
  }

  lemma FileGrows(sizeOf: seq<ByteEntry> -> nat, file: seq<(nat, seq<ByteEntry>)>, offset: nat,
                  indexBlock: seq<(ByteKey, BlockHandle)>, blocks: seq<seq<Entry>>, separators: seq<InternalKey>,
                  block: seq<ByteEntry>, es: seq<Entry>)
    requires HandlesOk(sizeOf, file, offset, indexBlock, blocks, separators) && Mirrors(block, es)
    ensures HandlesOk(sizeOf, file + [(offset, block)], offset + sizeOf(block) + BLOCK_TRAILER_SIZE, indexBlock,
                      blocks + [es], separators)
  {
    hide Mirrors;
  }

  lemma IndexGrows(sizeOf: seq<ByteEntry> -> nat, file: seq<(nat, seq<ByteEntry>)>, offset: nat,
                   indexBlock: seq<(ByteKey, BlockHandle)>, blocks: seq<seq<Entry>>, separators: seq<InternalKey>, r: ByteKey)
    requires HandlesOk(sizeOf, file, offset, indexBlock, blocks, separators) && |separators| == |blocks| - 1
    ensures |file| == |blocks|
    ensures HandlesOk(sizeOf, file, offset, indexBlock + [(r, HandleOf(sizeOf, file[|file| - 1]))], blocks,
                      separators + [Ranked(r)])
  {
    hide Mirrors;
  }

  lemma MirrorsGrow(bytes: seq<ByteEntry>, es: seq<Entry>, e: ByteEntry)
    requires Mirrors(bytes, es)
    ensures Mirrors(bytes + [e], es + [RankedEntry(e)])
  {
    hide RankedEntry;
  }

  lemma MirrorsEmpty(bytes: seq<ByteEntry>, es: seq<Entry>)
    requires Mirrors(bytes, es)
    ensures bytes == [] <==> es == []
    ensures Mirrors([], [])
  {
  }

  lemma SameFile(sizeOf: seq<ByteEntry> -> nat, file: seq<(nat, seq<ByteEntry>)>, offset: nat,
                 indexBlock: seq<(ByteKey, BlockHandle)>, blocks: seq<seq<Entry>>, separators: seq<InternalKey>)
    requires HandlesOk(sizeOf, file, offset, indexBlock, blocks, separators)
    ensures |file| == |blocks| && |indexBlock| == |separators|
  {
    hide Mirrors;
  }

  /** The user keys of a block, under its offset. */
  ghost function KeysAt(offset: nat, es: seq<ByteEntry>): seq<(nat, Bytes)> {
    if es == [] then [] else KeysAt(offset, es[..|es| - 1]) + [(offset, es[|es| - 1].key.user)]
  }

  ghost function FileKeys(file: seq<(nat, seq<ByteEntry>)>): seq<(nat, Bytes)> {
    if file == [] then [] else FileKeys(file[..|file| - 1]) + KeysAt(file[|file| - 1].0, file[|file| - 1].1)
  }

  /** The filter builder was given exactly the keys so far, each under the offset of its block. */
  ghost predicate Filtered(added: seq<(nat, Bytes)>, file: seq<(nat, seq<ByteEntry>)>, offset: nat, dataBlock: seq<ByteEntry>) {
    added == FileKeys(file) + KeysAt(offset, dataBlock)
  }

  lemma FilteredGrows(added: seq<(nat, Bytes)>, file: seq<(nat, seq<ByteEntry>)>, offset: nat, dataBlock: seq<ByteEntry>, e: ByteEntry)
    requires Filtered(added, file, offset, dataBlock)
    ensures Filtered(added + [(offset, e.key.user)], file, offset, dataBlock + [e])
  {
    assert (dataBlock + [e])[..|dataBlock|] == dataBlock;
  }

  lemma FilteredBlockEnds(added: seq<(nat, Bytes)>, file: seq<(nat, seq<ByteEntry>)>, offset: nat, dataBlock: seq<ByteEntry>, next: nat)
    requires Filtered(added, file, offset, dataBlock)
    ensures Filtered(added, file + [(offset, dataBlock)], next, [])
  {
    assert (file + [(offset, dataBlock)])[..|file|] == file;
  }

  lemma {:induction false} KeysAtHave(offset: nat, es: seq<ByteEntry>, x: ByteEntry)
    requires x in es
    ensures (offset, x.key.user) in KeysAt(offset, es)
  {
    if x != es[|es| - 1] {
      KeysAtHave(offset, es[..|es| - 1], x);
    }
  }

  lemma {:induction false} FileKeysHave(file: seq<(nat, seq<ByteEntry>)>, i: nat, x: ByteEntry)
    requires i < |file| && x in file[i].1
    ensures (file[i].0, x.key.user) in FileKeys(file)
    decreases |file|
  {
    if i == |file| - 1 {
      KeysAtHave(file[i].0, file[i].1, x);
    } else {
      FileKeysHave(file[..|file| - 1], i, x);
    }
  }

  // ----- short separators -----

  ghost function NextKey(file: seq<(nat, seq<ByteEntry>)>, dataBlock: seq<ByteEntry>, i: nat): Option<ByteKey>
    requires i < |file|
  {
    var next := if i + 1 < |file| then file[i + 1].1 else dataBlock;
    if next == [] then None else Some(next[0].key)
  }

  /** Each index key is the short separator of its block's last key and the key after it, or the short successor of
      the last key of all. */
  ghost predicate ShortKeys(file: seq<(nat, seq<ByteEntry>)>, dataBlock: seq<ByteEntry>, indexBlock: seq<(ByteKey, BlockHandle)>) {
    && |indexBlock| <= |file|
    && forall i :: 0 <= i < |indexBlock| ==>
         file[i].1 != [] &&
         var last, next := file[i].1[|file[i].1| - 1].key, NextKey(file, dataBlock, i);
         if next.Some? then IsSeparator(last, next.value, indexBlock[i].0) else IsSuccessor(last, indexBlock[i].0)
  }

  ghost predicate EndsWith(block: seq<ByteEntry>, key: ByteKey) {
    block != [] && block[|block| - 1].key == key
  }

  /** The last block still lacks its index entry, or there is a next key. */
  ghost predicate LastKnown(file: seq<(nat, seq<ByteEntry>)>, dataBlock: seq<ByteEntry>, indexed: nat, lastKey: ByteKey) {
    && (dataBlock != [] ==> EndsWith(dataBlock, lastKey))
    && (dataBlock == [] && file != [] ==> EndsWith(file[|file| - 1].1, lastKey) && indexed == |file| - 1)
    && (dataBlock != [] ==> indexed == |file|)
  }

  lemma ShortKeysAdd(file: seq<(nat, seq<ByteEntry>)>, dataBlock: seq<ByteEntry>, indexBlock: seq<(ByteKey, BlockHandle)>,
                     lastKey: ByteKey, e: ByteEntry, r: ByteKey, handle: BlockHandle)
    requires ShortKeys(file, dataBlock, indexBlock) && LastKnown(file, dataBlock, |indexBlock|, lastKey)
    ensures dataBlock != [] || file == [] ==> ShortKeys(file, dataBlock + [e], indexBlock)
    ensures dataBlock == [] && file != [] && IsSeparator(lastKey, e.key, r) ==>
              ShortKeys(file, dataBlock + [e], indexBlock + [(r, handle)])
  {
    hide IsSeparator, IsSuccessor;
    forall i | 0 <= i < |indexBlock| ensures NextKey(file, dataBlock + [e], i) == NextKey(file, dataBlock, i) {
    }
  }

  lemma ShortKeysFlush(file: seq<(nat, seq<ByteEntry>)>, dataBlock: seq<ByteEntry>, indexBlock: seq<(ByteKey, BlockHandle)>, offset: nat)
    requires ShortKeys(file, dataBlock, indexBlock) && dataBlock != []
    ensures ShortKeys(file + [(offset, dataBlock)], [], indexBlock)
  {
    hide IsSeparator, IsSuccessor;
    var file1 := file + [(offset, dataBlock)];
    forall i | 0 <= i < |indexBlock| ensures NextKey(file1, [], i) == NextKey(file, dataBlock, i) {
    }
  }

  lemma ShortKeysFinish(file: seq<(nat, seq<ByteEntry>)>, indexBlock: seq<(ByteKey, BlockHandle)>, lastKey: ByteKey, r: ByteKey,
                        handle: BlockHandle)
    requires ShortKeys(file, [], indexBlock) && LastKnown(file, [], |indexBlock|, lastKey) && file != []
    requires IsSuccessor(lastKey, r)
    ensures ShortKeys(file, [], indexBlock + [(r, handle)])
  {
    hide IsSeparator, IsSuccessor;
  }

  function OffsetsOf(file: seq<(nat, seq<ByteEntry>)>): (r: seq<nat>)
    ensures |r| == |file| && forall i :: 0 <= i < |file| ==> r[i] == file[i].0
  {
    if file == [] then [] else OffsetsOf(file[..|file| - 1]) + [file[|file| - 1].0]
  }

  /** A reader of the finished filter block rules out no key of the table. */
  lemma FinishedAdmits(policy: BloomFilterPolicy, contents: Bytes, added: seq<(nat, Bytes)>, file: seq<(nat, seq<ByteEntry>)>,
                       offset: nat, blocks: seq<seq<Entry>>)
    requires Filtered(added, file, offset, []) && forall a :: a in added ==> ReaderMayMatch(policy, contents, a.0, a.1)
    requires |file| == |blocks| && forall i :: 0 <= i < |file| ==> Mirrors(file[i].1, blocks[i])
    ensures FilterAdmits(policy, contents, OffsetsOf(file), blocks)
  {
    hide ReaderMayMatch, Rank;
    forall b, e, user | 0 <= b < |blocks| && e in blocks[b] && e.key.user == Rank(user)
      ensures ReaderMayMatch(policy, contents, OffsetsOf(file)[b], user)
    {
      var i :| 0 <= i < |blocks[b]| && blocks[b][i] == e;
      var x := file[b].1[i];
      assert Mirrors(file[b].1, blocks[b]);
      RankOrdersStrings(x.key.user, user);
      FileKeysHave(file, b, x);
      assert KeysAt(offset, []) == [];
    }
  }

  lemma FileMirrors(sizeOf: seq<ByteEntry> -> nat, file: seq<(nat, seq<ByteEntry>)>, offset: nat,
                    indexBlock: seq<(ByteKey, BlockHandle)>, blocks: seq<seq<Entry>>, separators: seq<InternalKey>)
    requires HandlesOk(sizeOf, file, offset, indexBlock, blocks, separators)
    ensures |file| == |blocks| && forall i :: 0 <= i < |file| ==> Mirrors(file[i].1, blocks[i])
  {
    hide Mirrors;
  }

  ghost predicate InOrder(es: seq<Entry>, n: nat, last: InternalKey) {
    Sorted(es) && n == |es| && (n > 0 ==> last == Last(es))
  }

  lemma OrderGrows(blocks: seq<seq<Entry>>, data: seq<Entry>, n: nat, last: InternalKey, e: Entry)
    requires InOrder(Concat(blocks) + data, n, last) && (n > 0 ==> Less(last, e.key))
    ensures InOrder(Concat(blocks) + (data + [e]), n + 1, e.key)
    ensures Concat(blocks) + (data + [e]) == Concat(blocks) + data + [e]
  {
    hide Less;
    SortedGrows(Concat(blocks) + data, e);
    assert Concat(blocks) + (data + [e]) == Concat(blocks) + data + [e];
  }

  lemma NothingShort(last: ByteKey)
    ensures ShortKeys([], [], []) && LastKnown([], [], 0, last)
  {
  }

  lemma NothingBuilt(sizeOf: seq<ByteEntry> -> nat, last: InternalKey)
    ensures HandlesOk(sizeOf, [], 0, [], [], []) && Mirrors([], []) && Filtered([], [], 0, [])
    ensures Concat<Entry>([]) + [] == [] && InOrder([], 0, last) && Cut([], [], [], false, last)
  {
    hide Less;
  }

  class TableBuilder {
    const blockSize: nat
    /** The encoded size of a block; the estimate and the file offsets come from it. */
    const sizeOf: seq<ByteEntry> -> nat
    const filterBlock: FilterBlockBuilder?
    var file: seq<(nat, seq<ByteEntry>)>
    var offset: nat
    var dataBlock: seq<ByteEntry>
    var indexBlock: seq<(ByteKey, BlockHandle)>
    var lastKey: ByteKey
    var numEntries: nat
    var closed: bool
    var pendingIndexEntry: bool
    var pendingHandle: BlockHandle
    ghost var blocks: seq<seq<Entry>>
    ghost var data: seq<Entry>
    ghost var separators: seq<InternalKey>

    /** All entries added so far. */
    ghost function Added(): seq<Entry>
      reads this`blocks, this`data
    {
      Concat(blocks) + data
    }

    ghost predicate Handles()
      reads this
    {
      HandlesOk(sizeOf, file, offset, indexBlock, blocks, separators)
    }

    /** The filter builder, if there is one, stands at the block being built and has all keys so far. */
    ghost predicate FilterOk()
      reads this, filterBlock
    {
      filterBlock != null ==>
        filterBlock.Valid() && filterBlock.block == offset && Filtered(filterBlock.added, file, offset, dataBlock)
    }

    ghost predicate Short()
      reads this
    {
      && ShortKeys(file, dataBlock, indexBlock) && LastKnown(file, dataBlock, |indexBlock|, lastKey)
      && (pendingIndexEntry <==> dataBlock == [] && file != [])
    }

    ghost predicate Valid()
      reads this, filterBlock
    {
      && (!closed ==> Short())
      && Handles() && FilterOk() && Mirrors(dataBlock, data)
      && InOrder(Added(), numEntries, Ranked(lastKey))
      && Cut(separators, blocks, data, pendingIndexEntry, Ranked(lastKey))
      && (pendingIndexEntry ==> file != [] && pendingHandle == HandleOf(sizeOf, file[|file| - 1]))
    }

    constructor (blockSize: nat, sizeOf: seq<ByteEntry> -> nat, filterBlock: FilterBlockBuilder?)
      requires filterBlock != null ==> filterBlock.Valid() && filterBlock.block == 0 && filterBlock.added == []
      modifies filterBlock
      ensures Valid() && Added() == [] && numEntries == 0 && !closed && this.filterBlock == filterBlock
    {
      hide Cut, InOrder, Less, Concat, HandlesOk, Mirrors, Ranked, HandleOf, ShortKeys, LastKnown, IsSeparator;
      hide IsSuccessor, Filtered, FilterBlockBuilder.Valid;
      this.blockSize, this.sizeOf, this.filterBlock := blockSize, sizeOf, filterBlock;
      file, offset, dataBlock, indexBlock, numEntries := [], 0, [], [], 0;
      lastKey := ByteKey([], 0, Deletion);
      closed, pendingIndexEntry, pendingHandle := false, false, BlockHandle(0, 0);
      blocks, data, separators := [], [], [];
      new;
      NothingBuilt(sizeOf, Ranked(lastKey));
      NothingShort(lastKey);
      if filterBlock != null {
        filterBlock.StartBlock(0);
      }
    }

    method Add(key: ByteKey, value: Bytes)
      requires Valid() && !closed
      requires numEntries > 0 ==> Less(Ranked(lastKey), Ranked(key))
      modifies this, filterBlock
      ensures Valid() && !closed && Added() == old(Added()) + [RankedEntry(ByteEntry(key, value))]
      ensures lastKey == key && numEntries == old(numEntries) + 1
      ensures var block := old(dataBlock) + [ByteEntry(key, value)];
              if sizeOf(block) >= blockSize then file == old(file) + [(old(offset), block)] && dataBlock == []
              else file == old(file) && dataBlock == block
    {
      hide Cut, InOrder, Less, Concat, HandlesOk, Mirrors, Ranked, HandleOf, ShortKeys, LastKnown, IsSeparator;
      hide IsSuccessor, Filtered, FilterBlockBuilder.Valid;
      ghost var e := RankedEntry(ByteEntry(key, value));
      OrderGrows(blocks, data, numEntries, Ranked(lastKey), e);
      MirrorsGrow(dataBlock, data, ByteEntry(key, value));
      AddSeparator(key, e);
      if filterBlock != null {
        FilteredGrows(filterBlock.added, file, offset, dataBlock, ByteEntry(key, value));
        filterBlock.AddKey(key.user);
      }
      KeyIsLast(file, dataBlock, |indexBlock|, ByteEntry(key, value));
      lastKey := key;
      numEntries := numEntries + 1;
      dataBlock := dataBlock + [ByteEntry(key, value)];
      data := data + [e];
      if sizeOf(dataBlock) >= blockSize {
        Flush();
      }
    }

    /** The index entry of the last block, now that the next key is known. */
    method AddSeparator(key: ByteKey, ghost e: Entry)
      requires Valid() && !closed && e.key == Ranked(key)
      modifies this`indexBlock, this`separators, this`pendingIndexEntry
      ensures !pendingIndexEntry && Handles() && Cut(separators, blocks, data + [e], false, e.key)
      ensures |indexBlock| == |file|
      ensures forall value :: ShortKeys(file, dataBlock + [ByteEntry(key, value)], indexBlock)
    {
      hide Cut, InOrder, Less, Concat, HandlesOk, Mirrors, Ranked, HandleOf, ShortKeys, LastKnown, IsSeparator, IsSuccessor;
      PendingMeansCut(separators, blocks, data, pendingIndexEntry, Ranked(lastKey));
      if pendingIndexEntry {
        var r := InternalSeparator(lastKey, key);
        SeparatorGoesIn(separators, blocks, Ranked(lastKey), Ranked(r), e);
        forall value ensures ShortKeys(file, dataBlock + [ByteEntry(key, value)], indexBlock + [(r, pendingHandle)]) {
          ShortKeysAdd(file, dataBlock, indexBlock, lastKey, ByteEntry(key, value), r, pendingHandle);
        }
        IndexedSoFar(file, dataBlock, |indexBlock|, lastKey);
        assert data + [e] == [e];
        IndexGrows(sizeOf, file, offset, indexBlock, blocks, separators, r);
        indexBlock := indexBlock + [(r, pendingHandle)];
        separators := separators + [Ranked(r)];
        pendingIndexEntry := false;
      } else {
        EntryGoesIn(separators, blocks, data, Ranked(lastKey), e);
        forall value ensures ShortKeys(file, dataBlock + [ByteEntry(key, value)], indexBlock) {
          ShortKeysAdd(file, dataBlock, indexBlock, lastKey, ByteEntry(key, value), key, BlockHandle(0, 0));
        }
        IndexedSoFar(file, dataBlock, |indexBlock|, lastKey);
        SameFile(sizeOf, file, offset, indexBlock, blocks, separators);
      }
    }

    /** Ends the block. */
    method Flush()
      requires Valid() && !closed
      modifies this, filterBlock
      ensures Valid() && !closed && Added() == old(Added()) && data == []
      ensures lastKey == old(lastKey) && numEntries == old(numEntries) && dataBlock == []
      ensures file == if old(dataBlock) == [] then old(file) else old(file) + [(old(offset), old(dataBlock))]
    {
      hide Cut, InOrder, Less, Concat, HandlesOk, Mirrors, Ranked, HandleOf, ShortKeys, LastKnown, IsSeparator;
      hide IsSuccessor, Filtered, FilterBlockBuilder.Valid;
      PendingMeansCut(separators, blocks, data, pendingIndexEntry, Ranked(lastKey));
      MirrorsEmpty(dataBlock, data);
      if dataBlock == [] {
        return;
      }
      FileGrows(sizeOf, file, offset, indexBlock, blocks, separators, dataBlock, data);
      ShortKeysFlush(file, dataBlock, indexBlock, offset);
      LastFlushed(file, dataBlock, |indexBlock|, lastKey, offset);
      BlockIsCut(separators, blocks, data, Ranked(lastKey));
      assert Concat(blocks) + data + [] == Concat(blocks) + data;
      pendingHandle := HandleOf(sizeOf, (offset, dataBlock));
      SameFile(sizeOf, file, offset, indexBlock, blocks, separators);
      file := file + [(offset, dataBlock)];
      offset := offset + sizeOf(dataBlock) + BLOCK_TRAILER_SIZE;
      blocks, data := blocks + [data], [];
      dataBlock := [];
      pendingIndexEntry := true;
      if filterBlock != null {
        FilteredBlockEnds(filterBlock.added, old(file), old(offset), old(dataBlock), offset);
        filterBlock.StartBlock(offset);
      }
    }

    /** The finished table holds exactly the entries added, under separators as the readers need them, and
        its filter block admits each of them. */
    method Finish() returns (filterContents: Option<Bytes>)
      requires Valid() && !closed
      modifies this, filterBlock
      ensures closed && !pendingIndexEntry && Handles() && |indexBlock| == |file|
      ensures Indexed(separators, blocks) && Concat(blocks) == old(Added()) && Sorted(Concat(blocks))
      ensures file == if old(dataBlock) == [] then old(file) else old(file) + [(old(offset), old(dataBlock))]
      ensures ShortKeys(file, [], indexBlock)
      ensures filterContents.Some? <==> filterBlock != null
      ensures filterBlock != null && |filterBlock.result| < TWO_32 ==>
                FilterAdmits(filterBlock.policy, filterContents.value, OffsetsOf(file), blocks)
    {
      hide Cut, InOrder, Less, Concat, HandlesOk, Mirrors, Ranked, HandleOf, ShortKeys, LastKnown, IsSeparator;
      hide IsSuccessor, Filtered, FilterBlockBuilder.Valid, ReaderMayMatch, OffsetsOf, FilterAdmits;
      Flush();
      closed := true;
      filterContents := FinishFilter();
      assert Concat(blocks) + [] == Concat(blocks);
      OrderMeansSorted(Concat(blocks), numEntries, Ranked(lastKey));
      PendingMeansCut(separators, blocks, data, pendingIndexEntry, Ranked(lastKey));
      if pendingIndexEntry {
        var r := InternalSuccessor(lastKey);
        IndexGrows(sizeOf, file, offset, indexBlock, blocks, separators, r);
        LastSeparator(separators, blocks, Ranked(lastKey), Ranked(r));
        ShortKeysFinish(file, indexBlock, lastKey, r, pendingHandle);
        indexBlock := indexBlock + [(r, pendingHandle)];
        separators := separators + [Ranked(r)];
        pendingIndexEntry := false;
      } else {
        NothingIndexed(separators, blocks);
      }
      SameFile(sizeOf, file, offset, indexBlock, blocks, separators);
    }

    method FinishFilter() returns (filterContents: Option<Bytes>)
      requires Valid() && data == []
      modifies filterBlock
      ensures filterContents.Some? <==> filterBlock != null
      ensures filterBlock != null && |filterBlock.result| < TWO_32 ==>
                FilterAdmits(filterBlock.policy, filterContents.value, OffsetsOf(file), blocks)
    {
      hide Cut, InOrder, Less, Concat, HandlesOk, Mirrors, Ranked, HandleOf, ShortKeys, LastKnown, IsSeparator;
      hide IsSuccessor, Filtered, FilterBlockBuilder.Valid, ReaderMayMatch, OffsetsOf, FilterAdmits;
      filterContents := None;
      if filterBlock != null {
        MirrorsEmpty(dataBlock, data);
        FileMirrors(sizeOf, file, offset, indexBlock, blocks, separators);
        var contents := filterBlock.Finish();
        filterContents := Some(contents);
        if |filterBlock.result| < TWO_32 {
          FinishedAdmits(filterBlock.policy, contents, filterBlock.added, file, offset, blocks);
        }
      }
    }
  }

  lemma KeyIsLast(file: seq<(nat, seq<ByteEntry>)>, dataBlock: seq<ByteEntry>, indexed: nat, e: ByteEntry)
    requires indexed == |file|
    ensures LastKnown(file, dataBlock + [e], indexed, e.key)
  {
  }

  lemma IndexedSoFar(file: seq<(nat, seq<ByteEntry>)>, dataBlock: seq<ByteEntry>, indexed: nat, lastKey: ByteKey)
    requires LastKnown(file, dataBlock, indexed, lastKey)
    ensures dataBlock == [] && file != [] ==> indexed == |file| - 1
    ensures dataBlock != [] ==> indexed == |file|
  {
  }

  lemma LastFlushed(file: seq<(nat, seq<ByteEntry>)>, dataBlock: seq<ByteEntry>, indexed: nat, lastKey: ByteKey, offset: nat)
    requires LastKnown(file, dataBlock, indexed, lastKey) && dataBlock != []
    ensures LastKnown(file + [(offset, dataBlock)], [], indexed, lastKey)
  {
  }

  lemma OrderMeansSorted(es: seq<Entry>, n: nat, last: InternalKey)
    requires InOrder(es, n, last)
    ensures Sorted(es)
  {
  }

  lemma NothingIndexed(separators: seq<InternalKey>, blocks: seq<seq<Entry>>)
    requires blocks == [] && separators == []
    ensures Indexed(separators, blocks)
  {
  }

  lemma PendingMeansCut(separators: seq<InternalKey>, blocks: seq<seq<Entry>>, data: seq<Entry>, pending: bool, last: InternalKey)
    requires Cut(separators, blocks, data, pending, last)
    ensures pending ==> data == [] && blocks != []
    ensures !pending && data == [] ==> blocks == []
    ensures |separators| == |blocks| - (if pending then 1 else 0)
  {
  }

  lemma SortedGrows(es: seq<Entry>, e: Entry)
    requires Sorted(es) && (es != [] ==> Less(Last(es), e.key))
    ensures Sorted(es + [e])
  {
    forall i | 0 <= i < |es| ensures Less(es[i].key, e.key) {
      assert i == |es| - 1 || Less(es[i].key, es[|es| - 1].key);
    }
  }
}
