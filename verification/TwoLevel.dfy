/** The two-level iterator: a cursor over blocks in a row (table/two_level_iterator.cc). Blocks may be
    empty. */
module TwoLevel {
  import opened Keys
  import opened Sequences
  import opened Table
  import opened Versions

  /** A cursor of the data block is at offset `q` of all the blocks: within its block, or just past its end. */
  ghost predicate AheadOf(blocks: seq<seq<Entry>>, indexPos: nat, data: Option<nat>, dataPos: nat, q: nat) {
    && indexPos <= |blocks|
    && (indexPos < |blocks| ==> data == Some(indexPos) && dataPos <= |blocks[indexPos]| && q == Offset(blocks, indexPos) + dataPos)
    && (indexPos == |blocks| ==> data.None? && q == |Concat(blocks)|)
  }

  /** Moving backwards: the entry before offset `q` is wanted, and it is the current one of the data block
      or lies in an earlier block. */
  ghost predicate BehindOf(blocks: seq<seq<Entry>>, indexPos: nat, data: Option<nat>, dataPos: nat, q: nat) {
    && indexPos <= |blocks|
    && (indexPos < |blocks| ==>
          && data == Some(indexPos) && dataPos <= |blocks[indexPos]|
          && q == Offset(blocks, indexPos) + if dataPos < |blocks[indexPos]| then dataPos + 1 else 0)
    && (indexPos == |blocks| ==> data.None? && q == 0)
  }

  /** On an entry of the data block, or on none at all. */
  ghost predicate At(blocks: seq<seq<Entry>>, indexPos: nat, data: Option<nat>, dataPos: nat, q: nat) {
    && (data.None? ==> q == |Concat(blocks)|)
    && (data.Some? ==>
          && data == Some(indexPos) && indexPos < |blocks| && dataPos < |blocks[indexPos]|
          && q == Offset(blocks, indexPos) + dataPos)
  }

  class TwoLevelIterator {
    const index: seq<InternalKey>
    const blocks: seq<seq<Entry>>
    /** Position of the index cursor; the length of the index is the invalid position. */
    var indexPos: nat
    /** Which block the data cursor is open on, if any, and its position there. */
    var data: Option<nat>
    var dataPos: nat
    /** Position among all entries; their number is the invalid position. */
    ghost var pos: nat

    ghost predicate Valid()
      reads this
    {
      Bounds(index, blocks) && Sorted(Concat(blocks)) && At(blocks, indexPos, data, dataPos, pos)
    }

    constructor (index: seq<InternalKey>, blocks: seq<seq<Entry>>)
      requires Bounds(index, blocks) && Sorted(Concat(blocks))
      ensures Valid() && pos == |Concat(blocks)| && this.blocks == blocks && this.index == index
    {
      this.index, this.blocks := index, blocks;
      indexPos, data, dataPos, pos := |index|, None, 0, |Concat(blocks)|;
    }

    predicate DataValid()
      requires data.Some? ==> data.value < |blocks|
      reads this
    {
      data.Some? && dataPos < |blocks[data.value]|
    }

    function Current(): (e: Entry)
      requires Valid() && data.Some?
      reads this
      ensures pos < |Concat(blocks)| && e == Concat(blocks)[pos]
    {
      InConcat(blocks, data.value, dataPos);
      blocks[data.value][dataPos]
    }

    /** Opens the block the index cursor is on, unless it is the one that is open. */
    method InitDataBlock()
      requires |index| == |blocks|
      modifies this`data, this`dataPos
      ensures data == if indexPos < |blocks| then Some(indexPos) else None
    {
      if indexPos >= |index| {
        data := None;
      } else if data == Some(indexPos) {
      } else {
        data, dataPos := Some(indexPos), |blocks[indexPos]|;
      }
    }

    method SkipEmptyDataBlocksForward(ghost q: nat)
      requires Bounds(index, blocks) && Sorted(Concat(blocks)) && AheadOf(blocks, indexPos, data, dataPos, q)
      modifies this
      ensures Valid() && pos == q
    {
      hide Bounds, Sorted, Concat, Offset;
      SameLengths(index, blocks);
      while !DataValid()
        invariant AheadOf(blocks, indexPos, data, dataPos, q)
        decreases |blocks| - indexPos, data.Some?
      {
        if indexPos >= |index| {
          data := None;
          pos := q;
          return;
        }
        NextBlockStarts(blocks, indexPos);
        indexPos := indexPos + 1;
        InitDataBlock();
        if data.Some? {
          dataPos := 0;
        }
      }
      pos := q;
    }

    method SkipEmptyDataBlocksBackward(ghost q: nat)
      requires Bounds(index, blocks) && Sorted(Concat(blocks)) && BehindOf(blocks, indexPos, data, dataPos, q)
      modifies this
      ensures Valid() && pos == if q == 0 then |Concat(blocks)| else q - 1
    {
      hide Bounds, Sorted, Concat, Offset;
      SameLengths(index, blocks);
      while !DataValid()
        invariant BehindOf(blocks, indexPos, data, dataPos, q)
        decreases if indexPos < |blocks| then indexPos + 1 else 0
      {
        if indexPos >= |index| {
          data := None;
          pos := |Concat(blocks)|;
          return;
        }
        BlockBeforeEnds(blocks, indexPos);
        indexPos := if indexPos == 0 then |index| else indexPos - 1;
        InitDataBlock();
        if data.Some? {
          dataPos := if blocks[data.value] == [] then 0 else |blocks[data.value]| - 1;
        }
      }
      pos := q - 1;
    }

    method Seek(target: InternalKey)
      requires Valid()
      modifies this
      ensures Valid() && pos == SeekIndex(Concat(blocks), target)
    {
      hide Bounds, Sorted, Concat, Offset;
      SameLengths(index, blocks);
      indexPos := SeekIndexKey(index, target);
      InitDataBlock();
      if data.Some? {
        dataPos := SeekIndex(blocks[data.value], target);
      }
      SeekLandsInBlock(index, blocks, target);
      EndOfBlocks(blocks);
      SkipEmptyDataBlocksForward(SeekIndex(Concat(blocks), target));
    }

    method SeekToFirst()
      requires Valid()
      modifies this
      ensures Valid() && pos == 0
    {
      hide Bounds, Sorted, Concat, Offset;
      SameLengths(index, blocks);
      indexPos := 0;
      InitDataBlock();
      if data.Some? {
        dataPos := 0;
      }
      EndOfBlocks(blocks);
      SkipEmptyDataBlocksForward(0);
    }

    method SeekToLast()
      requires Valid()
      modifies this
      ensures Valid() && pos == if |Concat(blocks)| == 0 then 0 else |Concat(blocks)| - 1
    {
      hide Bounds, Sorted, Concat, Offset;
      SameLengths(index, blocks);
      indexPos := if |index| == 0 then 0 else |index| - 1;
      InitDataBlock();
      if data.Some? {
        dataPos := if blocks[data.value] == [] then 0 else |blocks[data.value]| - 1;
      }
      EndOfBlocks(blocks);
      SkipEmptyDataBlocksBackward(|Concat(blocks)|);
    }

    method Next()
      requires Valid() && data.Some?
      modifies this
      ensures Valid() && pos == old(pos) + 1
    {
      hide Bounds, Sorted, Concat, Offset;
      dataPos := dataPos + 1;
      SkipEmptyDataBlocksForward(pos + 1);
    }

    method Prev()
      requires Valid() && data.Some?
      modifies this
      ensures Valid() && pos == if old(pos) == 0 then |Concat(blocks)| else old(pos) - 1
    {
      hide Bounds, Sorted, Concat, Offset;
      dataPos := if dataPos == 0 then |blocks[data.value]| else dataPos - 1;
      SkipEmptyDataBlocksBackward(pos);
    }
  }

  lemma SameLengths(index: seq<InternalKey>, blocks: seq<seq<Entry>>)
    requires Bounds(index, blocks)
    ensures |index| == |blocks|
  {
  }

  lemma NextBlockStarts(blocks: seq<seq<Entry>>, i: nat)
    requires i < |blocks|
    ensures Offset(blocks, i) + |blocks[i]| == Offset(blocks, i + 1)
    ensures Offset(blocks, |blocks|) == |Concat(blocks)|
  {
    ConcatAt(blocks, i);
    OffsetEnds(blocks);
  }

  lemma BlockBeforeEnds(blocks: seq<seq<Entry>>, i: nat)
    requires i < |blocks|
    ensures i > 0 ==> Offset(blocks, i - 1) + |blocks[i - 1]| == Offset(blocks, i)
    ensures Offset(blocks, 0) == 0
  {
    OffsetEnds(blocks);
    if i > 0 {
      ConcatAt(blocks, i - 1);
    }
  }

  /** The offsets of the first and the last block. */
  lemma EndOfBlocks(blocks: seq<seq<Entry>>)
    ensures Offset(blocks, 0) == 0 && Offset(blocks, |blocks|) == |Concat(blocks)|
    ensures blocks != [] ==> Offset(blocks, |blocks| - 1) + |blocks[|blocks| - 1]| == |Concat(blocks)|
    ensures blocks == [] ==> |Concat(blocks)| == 0
  {
    OffsetEnds(blocks);
    if blocks != [] {
      ConcatAt(blocks, |blocks| - 1);
    }
  }

  /** A level below 0 is a two-level structure: its files under their largest keys. */
  lemma LevelIsTwoLevel(files: seq<FileMetaData>, index: seq<InternalKey>, blocks: seq<seq<Entry>>)
    requires SortedLevel(files) && |index| == |blocks| == |files|
    requires forall i :: 0 <= i < |files| ==> index[i] == files[i].Largest() && blocks[i] == files[i].entries
    ensures Bounds(index, blocks) && Sorted(Concat(blocks))
  {
    hide Concat, Offset, Sorted, SortedLevel, Less;
    forall i, e | 0 <= i < |blocks| && e in blocks[i] ensures !Less(index[i], e.key) {
      WithinFile(files[i], e);
    }
    forall i, j, e | 0 <= i < j < |blocks| && e in blocks[j] ensures Less(index[i], e.key) {
      LaterFile(files, i, files[i].entries[|files[i].entries| - 1], j, e);
    }
    forall x, y | 0 <= x < y < |Concat(blocks)| ensures Less(Concat(blocks)[x].key, Concat(blocks)[y].key) {
      InLevelOrder(files, blocks, x, y);
    }
    SortedByPairs(Concat(blocks));
  }

  lemma SortedByPairs(es: seq<Entry>)
    requires forall x, y :: 0 <= x < y < |es| ==> Less(es[x].key, es[y].key)
    ensures Sorted(es)
  {
  }

  lemma LaterFile(files: seq<FileMetaData>, i: nat, d: Entry, j: nat, e: Entry)
    requires SortedLevel(files) && i < j < |files| && d in files[i].entries && e in files[j].entries
    ensures Less(d.key, e.key)
  {
    hide Sorted;
    WithinFile(files[i], d);
    WithinFile(files[j], e);
  }

  lemma InFile(f: FileMetaData, p: nat, q: nat)
    requires p < q < |f.entries|
    ensures Less(f.entries[p].key, f.entries[q].key)
  {
  }

  lemma InLevelOrder(files: seq<FileMetaData>, blocks: seq<seq<Entry>>, x: nat, y: nat)
    requires SortedLevel(files) && |blocks| == |files| && forall i :: 0 <= i < |files| ==> blocks[i] == files[i].entries
    requires x < y < |Concat(blocks)|
    ensures Less(Concat(blocks)[x].key, Concat(blocks)[y].key)
  {
    hide Concat, Offset, Sorted, SortedLevel, Less;
    var i := BlockOf(blocks, x);
    var j := BlockOf(blocks, y);
    ConcatAt(blocks, i);
    ConcatAt(blocks, j);
    InConcat(blocks, i, x - Offset(blocks, i));
    InConcat(blocks, j, y - Offset(blocks, j));
    if i == j {
      InFile(files[i], x - Offset(blocks, i), y - Offset(blocks, i));
    } else if i < j {
      LaterFile(files, i, blocks[i][x - Offset(blocks, i)], j, blocks[j][y - Offset(blocks, j)]);
    } else {
      OffsetsGrow(blocks, j + 1, i);
    }
  }
}
