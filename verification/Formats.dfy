/** The formats in bytes and numbers. Elsewhere readers and writers are proved against each other; here
    their common formats are stated with nothing but literal numbers. */
module Formats {
  import opened Keys
  import opened Coding
  import opened Numbers
  import opened Sequences
  import Block
  import FilterBlock
  import Log
  import MemTable
  import Separators
  import VersionEdit
  import WriteBatch

  // ----- numbers (util/coding.cc, util/crc32c.h) -----

  /** Byte `i` of a varint holds the seven bits from bit 7 * i on; all but the last have the high bit. */
  lemma {:induction false} VarintDigit(v: nat, i: nat)
    requires i < |Varint(v)|
    ensures Varint(v)[i] % 128 == v / Power128(i) % 128
    ensures Varint(v)[i] >= 128 <==> i < |Varint(v)| - 1
    decreases i
  {
    hide Varint, Power128;
    PowersStart();
    if v < 128 {
      VarintByte(v);
    } else {
      VarintStep(v);
      if i > 0 {
        VarintDigit(v / 128, i - 1);
        PowerSteps(i);
        DivideTwice(v, 128, Power128(i - 1));
      }
    }
  }

  lemma PowersStart()
    ensures Power128(0) == 1 && Power256(0) == 1
  {
  }

  lemma PowerSteps(i: nat)
    requires i > 0
    ensures Power128(i) == 128 * Power128(i - 1) && Power256(i) == 256 * Power256(i - 1)
  {
  }

  /** A varint takes one byte for every seven bits, and at least one. */
  lemma {:induction false} VarintLengthIs(v: nat, n: nat)
    requires n > 0
    ensures |Varint(v)| <= n <==> v < Power128(n)
    decreases n
  {
    hide Varint, Power128;
    PowersStart();
    PowerSteps(n);
    if v < 128 {
      VarintByte(v);
    } else {
      VarintStep(v);
      if n > 1 {
        VarintLengthIs(v / 128, n - 1);
      } else {
        assert |Varint(v / 128)| > 0;
      }
    }
  }

  /** Byte `i` of a fixed number holds the eight bits from bit 8 * i on. */
  lemma {:induction false} FixedDigit(v: nat, n: nat, i: nat)
    requires i < n
    ensures |Fixed(v, n)| == n && Fixed(v, n)[i] == v / Power256(i) % 256
    decreases i
  {
    hide Power256;
    PowersStart();
    if i > 0 {
      FixedDigit(v / 256, n - 1, i - 1);
      PowerSteps(i);
      DivideTwice(v, 256, Power256(i - 1));
    }
  }

  /** A masked checksum is the checksum rotated right by 15 bits, plus a constant, in 32 bits. */
  lemma MaskInNumbers(crc: Word32)
    ensures Mask(crc) == (crc / 32768 + crc % 32768 * 131072 + 2726488792) % 4294967296
    ensures Unmask(Mask(crc)) == crc
  {
    MaskRoundTrip(crc);
  }

  // ----- the log (db/log_format.h) -----

  /** The parts of a physical record: four bytes of checksum, two of length, one of type (1 whole, 2 first,
      3 middle, 4 last), and the payload. The checksum is of type and payload. */
  lemma PhysicalInBytes(crc: Log.Checksum, begin: bool, end: bool, payload: Bytes)
    requires |payload| < 65536
    ensures var kind: Byte := if begin then (if end then 1 else 2) else if end then 4 else 3;
            var r := Log.Physical(crc, Log.FragmentType(begin, end), payload);
            && |r| == 7 + |payload|
            && FixedValue(r[..4]) == Mask(crc([kind] + payload))
            && FixedValue(r[4..6]) == |payload| && r[6] == kind && r[7..] == payload
  {
    hide Fixed, Mask;
    var kind := Log.FragmentType(begin, end);
    var r := Log.Physical(crc, kind, payload);
    Fixed32RoundTrip(Mask(crc([kind] + payload)));
    assert r[..4] == Fixed(Mask(crc([kind] + payload)), 4);
    assert r[4..6] == [|payload| % 256, |payload| / 256];
    TwoBytes(|payload| % 256, |payload| / 256);
  }

  lemma TwoBytes(low: Byte, high: Byte)
    ensures FixedValue([low, high]) == (low as int) + 256 * (high as int)
  {
    assert FixedValue([high]) == high;
  }

  /** Where a file of length `p` goes on, and how many bytes fit there: no record starts in the last six bytes
      of a block of 32768, which are zeros, and none goes over the end of one. */
  lemma FragmentsInBytes(crc: Log.Checksum, p: nat, data: Bytes, begin: bool)
    ensures var left := 32768 - p % 32768;
            var pad := if left < 7 then left else 0;
            var room := if left < 7 then 32761 else left - 7;
            var zeros := Log.Trailer(pad);
            && (forall i :: 0 <= i < pad ==> zeros[i] == 0)
            && (|data| <= room ==> Log.Emitted(crc, p, data, begin) == zeros + Log.Physical(crc, Log.FragmentType(begin, true), data))
            && (|data| > room ==>
                  Log.Emitted(crc, p, data, begin) ==
                    zeros + Log.Physical(crc, Log.FragmentType(begin, false), data[..room])
                    + Log.Emitted(crc, p + pad + 7 + room, data[room..], false))
  {
    hide Log.Physical, Log.FragmentType, Log.Trailer;
    var left := 32768 - p % 32768;
    var pad := if left < 7 then left else 0;
    assert Log.RecordStart(p) == p + pad;
    assert pad > 0 ==> (p + pad) % 32768 == 0;
    TrailerIsZero(pad);
    assert data[..|data|] == data;
  }

  lemma TrailerIsZero(n: nat)
    requires n < 7
    ensures forall i :: 0 <= i < n ==> Log.Trailer(n)[i] == 0
  {
  }

  // ----- version edits (db/version_edit.cc) -----

  /** Each field with its tag: comparator 1, log number 2, next file number 3, last sequence number 4,
      compaction pointer 5, deleted file 6, new file 7, previous log number 9. */
  lemma FieldInBytes(f: VersionEdit.Field)
    requires VersionEdit.FieldFits(f)
    ensures f.Comparator? ==> VersionEdit.FieldBytes(f) == [1] + Varint(|f.name|) + f.name
    ensures f.LogNumber? ==> VersionEdit.FieldBytes(f) == [2] + Varint(f.number)
    ensures f.NextFileNumber? ==> VersionEdit.FieldBytes(f) == [3] + Varint(f.number)
    ensures f.LastSequence? ==> VersionEdit.FieldBytes(f) == [4] + Varint(f.sequence)
    ensures f.CompactPointer? ==> VersionEdit.FieldBytes(f) == [5, f.level] + Varint(|f.key|) + f.key
    ensures f.DeletedFile? ==> VersionEdit.FieldBytes(f) == [6, f.level] + Varint(f.number)
    ensures f.NewFile? ==>
              VersionEdit.FieldBytes(f) ==
                [7, f.level] + Varint(f.file.number) + Varint(f.file.fileSize) + Varint(|f.file.smallest|) + f.file.smallest
                + Varint(|f.file.largest|) + f.file.largest
    ensures f.PrevLogNumber? ==> VersionEdit.FieldBytes(f) == [9] + Varint(f.number)
  {
    hide Varint;
    VarintByte(VersionEdit.Tag(f));
    if f.CompactPointer? || f.DeletedFile? || f.NewFile? {
      VarintByte(f.level);
    }
    if f.NewFile? {
      var a, b, c := Varint(f.file.number), Varint(f.file.fileSize), Varint(|f.file.smallest|);
      var d, e, g := f.file.smallest, Varint(|f.file.largest|), f.file.largest;
      assert [7] + ([f.level] + a + b + (c + d) + (e + g)) == [7, f.level] + a + b + c + d + e + g;
    } else if f.CompactPointer? {
      assert [5] + ([f.level] + (Varint(|f.key|) + f.key)) == [5, f.level] + Varint(|f.key|) + f.key;
    } else if f.Comparator? {
      assert [1] + (Varint(|f.name|) + f.name) == [1] + Varint(|f.name|) + f.name;
    }
  }

  /** Any other tag is refused, and so is a level of seven or more. */
  lemma OtherTagsRefused(tag: nat, level: nat, input: Bytes)
    requires tag !in {1, 2, 3, 4, 5, 6, 7, 9} && 7 <= level < TWO_32
    ensures VersionEdit.ParseField(tag, input) == VersionEdit.FieldError(VersionEdit.UnknownTag)
    ensures VersionEdit.GetLevel(Varint(level) + input) == Malformed
  {
    hide Varint, GetVarint32;
    Varint32RoundTrip(level, input);
  }

  // ----- write batches (db/write_batch.cc) -----

  /** A put is a 1, key and value; a deletion is a 0 and the key. */
  lemma UpdateInBytes(u: WriteBatch.Update)
    requires WriteBatch.Fits(u)
    ensures u.Put? ==> WriteBatch.UpdateBytes(u) == [1] + Varint(|u.key|) + u.key + Varint(|u.value|) + u.value
    ensures u.Delete? ==> WriteBatch.UpdateBytes(u) == [0] + Varint(|u.key|) + u.key
  {
    hide Varint;
    var k := Varint(|u.key|);
    if u.Put? {
      var v := Varint(|u.value|);
      assert [1] + (k + u.key) + (v + u.value) == [1] + k + u.key + v + u.value;
    } else {
      assert [0] + (k + u.key) == [0] + k + u.key;
    }
  }

  /** A batch: eight bytes of sequence number, four of count, and the updates. */
  lemma BatchInBytes(b: WriteBatch.WriteBatch)
    requires b.Valid()
    ensures |b.rep| >= 12 && b.Sequence() == FixedValue(b.rep[..8]) && FixedValue(b.rep[8..12]) == |b.updates|
    ensures b.Count() == |b.updates| && b.rep[12..] == WriteBatch.Encoded(b.updates)
  {
    hide Fixed, WriteBatch.Encoded;
    Fixed32RoundTrip(|b.updates|);
  }

  // ----- keys (db/dbformat.h, db/memtable.cc) -----

  /** An internal key: the user key, one byte of type (0 deletion, 1 value), seven of sequence number. */
  lemma InternalKeyInBytes(k: Separators.ByteKey)
    requires k.sequence <= 0xFF_FFFF_FFFF_FFFF
    ensures var s := Separators.AppendInternalKey(k);
            && |s| == |k.user| + 8 && s[..|k.user|] == k.user && s[|k.user|] == (if k.kind.Value? then 1 else 0)
            && FixedValue(s[|k.user| + 1..]) == k.sequence
  {
    hide Fixed, FixedValue;
    var s, n := Separators.AppendInternalKey(k), Pack(k.sequence, k.kind);
    FixedSplits(n);
    assert n % 256 == TypeByte(k.kind) && n / 256 == k.sequence;
    assert s[|k.user| + 1..] == Fixed(k.sequence, 7);
    SevenBytes(k.sequence);
  }

  /** Eight bytes or more with a type byte of 0 or 1 are an internal key, and nothing else is. */
  lemma InternalKeyParses(s: Bytes)
    ensures Separators.ParseInternalKey(s) ==
            if |s| < 8 || s[|s| - 8] > 1 then None
            else Some(Separators.ByteKey(s[..|s| - 8], FixedValue(s[|s| - 7..]), if s[|s| - 8] == 1 then Value else Deletion))
  {
    if |s| >= 8 {
      var tail := s[|s| - 8..];
      assert tail[1..] == s[|s| - 7..];
      assert FixedValue(tail) == tail[0] + 256 * FixedValue(tail[1..]);
    }
  }

  lemma FixedSplits(n: nat)
    ensures Fixed(n, 8) == [n % 256] + Fixed(n / 256, 7)
  {
  }

  lemma SevenBytes(n: nat)
    requires n <= 0xFF_FFFF_FFFF_FFFF
    ensures FixedValue(Fixed(n, 7)) == n
  {
    hide Fixed, FixedValue, Power256;
    PowersStart();
    PowerSteps(1);
    PowerSteps(2);
    PowerSteps(3);
    PowerSteps(4);
    PowerSteps(5);
    PowerSteps(6);
    PowerSteps(7);
    FixedRoundTrip(n, 7);
  }

  /** A lookup asks for a value at the snapshot, which comes first of all entries it can see. */
  lemma EntryInBytes(e: Separators.ByteEntry, snapshot: nat)
    requires MemTable.FitsEntry(e) && snapshot <= 0xFF_FFFF_FFFF_FFFF
    ensures var k, v := Separators.AppendInternalKey(e.key), e.value;
            MemTable.EntryBytes(e) == Varint(|e.key.user| + 8) + k + Varint(|v|) + v
    ensures MemTable.LookupBytes(e.key.user, snapshot)
         == Varint(|e.key.user| + 8) + Separators.AppendInternalKey(Separators.ByteKey(e.key.user, snapshot, Value))
  {
    hide Varint, Fixed;
    var k, v := Separators.AppendInternalKey(e.key), e.value;
    assert Varint(|k|) + k + (Varint(|v|) + v) == Varint(|k|) + k + Varint(|v|) + v;
  }

  // ----- blocks (table/block_builder.cc, table/filter_block.cc) -----

  /** An entry of a block whose lengths take one byte each: how much of the key is shared, how much follows,
      the length of the value, the rest of the key, and the value. */
  lemma BlockEntryInBytes(item: Block.Item, shared: nat)
    requires shared <= |item.key| < 128 && |item.value| < 128
    ensures Block.Fits(item)
    ensures Block.EntryBytes(item, shared) == [shared, |item.key| - shared, |item.value|] + item.key[shared..] + item.value
  {
    hide Varint;
    VarintByte(shared);
    VarintByte(|item.key| - shared);
    VarintByte(|item.value|);
  }

  /** A block ends with four bytes for each restart point and four for their number. */
  lemma BlockEndInBytes(data: Bytes, restarts: seq<nat>, r: nat)
    requires r < |restarts| < TWO_32 && restarts[r] < TWO_32
    ensures var b := Block.BlockBytes(data, restarts);
            && |b| == |data| + 4 * |restarts| + 4 && b[..|data|] == data
            && FixedValue(b[|data| + 4 * r..|data| + 4 * r + 4]) == restarts[r]
            && FixedValue(b[|b| - 4..]) == |restarts|
  {
    hide Fixed, Block.RestartBytes;
    var b := Block.BlockBytes(data, restarts);
    Block.RestartInArray(restarts, r);
    MiddleSlice(data, Block.RestartBytes(restarts), Fixed(|restarts|, 4), 4 * r, 4 * r + 4);
    assert b[|b| - 4..] == Fixed(|restarts|, 4);
    Fixed32RoundTrip(restarts[r]);
    Fixed32RoundTrip(|restarts|);
  }

  /** A filter block: the filters, four bytes for the offset of each, four for the offset of those, and the
      window size of 2048 bytes as the power of two that it is. */
  lemma FilterEndInBytes(data: Bytes, offsets: seq<nat>, i: nat)
    requires i < |offsets| && offsets[i] < TWO_32 && |data| < TWO_32
    ensures var b := FilterBlock.Finished(data, offsets);
            && |b| == |data| + 4 * |offsets| + 5 && b[..|data|] == data
            && FixedValue(b[|data| + 4 * i..|data| + 4 * i + 4]) == offsets[i]
            && FixedValue(b[|b| - 5..|b| - 1]) == |data|
            && b[|b| - 1] == 11
  {
    hide Fixed, Block.RestartBytes;
    var b := FilterBlock.Finished(data, offsets);
    Block.RestartInArray(offsets, i);
    var tail := Fixed(|data|, 4) + [11];
    assert b == data + Block.RestartBytes(offsets) + tail;
    MiddleSlice(data, Block.RestartBytes(offsets), tail, 4 * i, 4 * i + 4);
    assert b[|b| - 5..|b| - 1] == Fixed(|data|, 4);
    Fixed32RoundTrip(offsets[i]);
    Fixed32RoundTrip(|data|);
  }
}
