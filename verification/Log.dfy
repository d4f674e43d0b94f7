/** The record log: blocks of 32 kilobytes holding whole and split records (db/log_format.h,
    db/log_writer.cc, db/log_reader.cc). */
module Log {
  import opened Keys
  import opened Coding
  import opened Sequences

  const BLOCK_SIZE: nat := 32768
  const HEADER_SIZE: nat := 7

  const ZERO_TYPE: Byte := 0
  const FULL_TYPE: Byte := 1
  const FIRST_TYPE: Byte := 2
  const MIDDLE_TYPE: Byte := 3
  const LAST_TYPE: Byte := 4

  /** A checksum function; nothing is used of it but that it is a function. */
  type Checksum = Bytes -> Word32

  /** Checksum, length and type, then the payload. */
  function Physical(crc: Checksum, kind: Byte, payload: Bytes): (r: Bytes)
    requires |payload| < 0x1_0000
    ensures |r| == HEADER_SIZE + |payload|
  {
    Fixed(Mask(crc([kind] + payload)), 4) + [|payload| % 256, |payload| / 256, kind] + payload
  }

  /** Where the next physical record goes in a file of length `p`: fewer than seven bytes at the end
      of a block are a trailer. */
  function RecordStart(p: nat): (r: nat)
    ensures p <= r < p + HEADER_SIZE
    ensures r % BLOCK_SIZE + HEADER_SIZE <= BLOCK_SIZE
  {
    var leftover := BLOCK_SIZE - p % BLOCK_SIZE;
    if leftover < HEADER_SIZE then p + leftover else p
  }

  function Trailer(n: nat): (r: Bytes)
    requires n < HEADER_SIZE
    ensures |r| == n
  {
    [0, 0, 0, 0, 0, 0][..n]
  }

  /** The length of the next fragment of `left` bytes in a file of length `p`. */
  function FragmentLength(p: nat, left: nat): (r: nat)
    ensures r <= left && RecordStart(p) % BLOCK_SIZE + HEADER_SIZE + r <= BLOCK_SIZE
  {
    var avail := BLOCK_SIZE - RecordStart(p) % BLOCK_SIZE - HEADER_SIZE;
    if left < avail then left else avail
  }

  function FragmentType(begin: bool, end: bool): (r: Byte)
    ensures 1 <= r <= 4
  {
    if begin && end then FULL_TYPE else if begin then FIRST_TYPE else if end then LAST_TYPE else MIDDLE_TYPE
  }

  /** What appending `data` (a record, or what is left of one unless `begin`) adds to a file of length `p`. */
  function Emitted(crc: Checksum, p: nat, data: Bytes, begin: bool): (r: Bytes)
    decreases |data|, if FragmentLength(p, |data|) == 0 then 1 else 0
  {
    var n := FragmentLength(p, |data|);
    var end := n == |data|;
    var first := Trailer(RecordStart(p) - p) + Physical(crc, FragmentType(begin, end), data[..n]);
    if end then first else first + Emitted(crc, RecordStart(p) + HEADER_SIZE + n, data[n..], false)
  }

  /** The log file that holds the given records and nothing else. */
  function LogFile(crc: Checksum, records: seq<Bytes>): Bytes {
    if records == [] then []
    else
      var before := LogFile(crc, records[..|records| - 1]);
      before + Emitted(crc, |before|, records[|records| - 1], true)
  }

  class Writer {
    const crc: Checksum
    var dest: Bytes
    var blockOffset: nat

    ghost predicate Valid()
      reads this
    {
      blockOffset <= BLOCK_SIZE && blockOffset % BLOCK_SIZE == |dest| % BLOCK_SIZE
    }

    constructor (crc: Checksum)
      ensures Valid() && dest == [] && this.crc == crc
    {
      this.crc, dest, blockOffset := crc, [], 0;
    }

    /** Continues a file that already has contents. */
    constructor Reopen(crc: Checksum, dest: Bytes)
      ensures Valid() && this.dest == dest && this.crc == crc
    {
      this.crc, this.dest, blockOffset := crc, dest, |dest| % BLOCK_SIZE;
    }

    /** What is appended depends on the file and the record alone, so a reopened writer goes on
        exactly as the first one would have. */
    method AddRecord(data: Bytes)
      requires Valid()
      modifies this
      ensures Valid() && dest == old(dest) + Emitted(crc, |old(dest)|, data, true)
    {
      hide Physical, Emitted, RecordStart, FragmentLength, Trailer;
      var ptr: nat, left: nat, begin := 0, |data|, true;
      var more := true;
      assert data[0..] == data;
      while more
        invariant Valid() && ptr + left == |data|
        invariant more ==> dest + Emitted(crc, |dest|, data[ptr..], begin) == old(dest) + Emitted(crc, |old(dest)|, data, true)
        invariant !more ==> dest == old(dest) + Emitted(crc, |old(dest)|, data, true)
        decreases more, left, if FragmentLength(|dest|, left) == 0 then 1 else 0
      {
        ghost var dest0 := dest;
        var leftover := BLOCK_SIZE - blockOffset;
        LeftoverInBlock(blockOffset, |dest|, left);
        if leftover < HEADER_SIZE {
          if leftover > 0 {
            dest := dest + [0, 0, 0, 0, 0, 0][..leftover];
          }
          blockOffset := 0;
        }
        var avail := BLOCK_SIZE - blockOffset - HEADER_SIZE;
        var length := if left < avail then left else avail;
        var end := left == length;
        var kind := if begin && end then FULL_TYPE else if begin then FIRST_TYPE else if end then LAST_TYPE else MIDDLE_TYPE;
        assert kind == FragmentType(begin, end);
        PadTo(dest0, dest, leftover);
        SliceOfTail(data, ptr, 0, length);
        EmitOne(crc, dest0, data[ptr..], begin);
        EmitPhysicalRecord(kind, data[ptr..ptr + length]);
        ptr, left, begin := ptr + length, left - length, false;
        more := left > 0;
      }
    }

    method EmitPhysicalRecord(kind: Byte, payload: Bytes)
      requires blockOffset % BLOCK_SIZE == |dest| % BLOCK_SIZE && blockOffset + HEADER_SIZE + |payload| <= BLOCK_SIZE
      modifies this
      ensures Valid() && dest == old(dest) + Physical(crc, kind, payload)
    {
      hide Mask;
      var sum := Fixed(Mask(crc([kind] + payload)), 4);
      var header := sum + [|payload| % 256, |payload| / 256, kind];
      assert dest + header + payload == dest + (header + payload);
      dest := dest + header;
      dest := dest + payload;
      blockOffset := blockOffset + HEADER_SIZE + |payload|;
    }
  }

  /** The writer's offset in its block tells where the next record goes and how much of it fits. */
  lemma LeftoverInBlock(blockOffset: nat, length: nat, left: nat)
    requires blockOffset <= BLOCK_SIZE && blockOffset % BLOCK_SIZE == length % BLOCK_SIZE
    ensures var leftover := BLOCK_SIZE - blockOffset;
            var offset := if leftover < HEADER_SIZE then 0 else blockOffset;
            && RecordStart(length) == length + (if leftover < HEADER_SIZE then leftover else 0)
            && RecordStart(length) % BLOCK_SIZE == offset
            && FragmentLength(length, left)
               == (if left < BLOCK_SIZE - offset - HEADER_SIZE then left else BLOCK_SIZE - offset - HEADER_SIZE)
            && (FragmentLength(length, left) == 0 && left > 0 ==>
                  FragmentLength(RecordStart(length) + HEADER_SIZE, left) > 0)
  {
  }

  lemma PadTo(dest0: Bytes, dest: Bytes, leftover: nat)
    requires dest == if 0 < leftover < HEADER_SIZE then dest0 + [0, 0, 0, 0, 0, 0][..leftover] else dest0
    requires RecordStart(|dest0|) == |dest0| + if leftover < HEADER_SIZE then leftover else 0
    ensures dest == dest0 + Trailer(RecordStart(|dest0|) - |dest0|)
  {
    hide RecordStart;
  }

  /** One round of the append loop. */
  lemma EmitOne(crc: Checksum, dest: Bytes, data: Bytes, begin: bool)
    ensures var n := FragmentLength(|dest|, |data|);
            var padded := dest + Trailer(RecordStart(|dest|) - |dest|);
            var dest1 := padded + Physical(crc, FragmentType(begin, n == |data|), data[..n]);
            && |dest1| == RecordStart(|dest|) + HEADER_SIZE + n
            && (n == |data| ==> dest + Emitted(crc, |dest|, data, begin) == dest1)
            && (n < |data| ==> dest + Emitted(crc, |dest|, data, begin) == dest1 + Emitted(crc, |dest1|, data[n..], false))
  {
    hide RecordStart, FragmentLength, Trailer, Physical, FragmentType, Emitted;
    EmittedUnfolds(crc, |dest|, data, begin);
    var n := FragmentLength(|dest|, |data|);
    var trailer := Trailer(RecordStart(|dest|) - |dest|);
    var physical := Physical(crc, FragmentType(begin, n == |data|), data[..n]);
    assert dest + (trailer + physical) == dest + trailer + physical;
    if n < |data| {
      var rest := Emitted(crc, RecordStart(|dest|) + HEADER_SIZE + n, data[n..], false);
      assert dest + (trailer + physical + rest) == dest + trailer + physical + rest;
    }
  }

  lemma EmittedUnfolds(crc: Checksum, p: nat, data: Bytes, begin: bool)
    ensures var n := FragmentLength(p, |data|);
            var first := Trailer(RecordStart(p) - p) + Physical(crc, FragmentType(begin, n == |data|), data[..n]);
            && (n == |data| ==> Emitted(crc, p, data, begin) == first)
            && (n < |data| ==>
                  Emitted(crc, p, data, begin) == first + Emitted(crc, RecordStart(p) + HEADER_SIZE + n, data[n..], false))
  {
  }

  /** What reading one physical record comes to. */
  datatype Step =
    | Eof
    | Bad(next: nat, dropped: seq<nat>)
    | Fragment(kind: Byte, payload: Bytes, next: nat)

  function Length16(low: Byte, high: Byte): (r: nat)
    ensures r < 0x1_0000
  {
    low + high * 256
  }

  /** The physical record at the front of `buffer`, the rest of a block from offset `at` on; `full` says
      that the block is not cut off by the end of the file. A damaged record takes the rest of its block
      with it; a record cut off by the end of the file is no damage. */
  function StepInBlock(crc: Checksum, checksum: bool, buffer: Bytes, full: bool, at: nat): (r: Step)
    requires |buffer| >= HEADER_SIZE
    ensures r.Bad? || r.Fragment? ==> at < r.next <= at + |buffer|
  {
    var length := Length16(buffer[4], buffer[5]);
    if HEADER_SIZE + length > |buffer| then
      if full then Bad(at + |buffer|, [|buffer|]) else Eof
    else if buffer[6] == ZERO_TYPE && length == 0 then Bad(at + |buffer|, [])
    else if checksum && Unmask(DecodeFixed32(buffer[..4])) != crc(buffer[6..HEADER_SIZE + length]) then
      Bad(at + |buffer|, [|buffer|])
    else Fragment(buffer[6], buffer[HEADER_SIZE..HEADER_SIZE + length], at + HEADER_SIZE + length)
  }

  /** The end of the block that `at` lies in. */
  function Boundary(at: nat): (r: nat)
    ensures at < r <= at + BLOCK_SIZE && r % BLOCK_SIZE == 0
  {
    at - at % BLOCK_SIZE + BLOCK_SIZE
  }

  /** The physical record at or after offset `p` of a file, any file. */
  function StepAt(crc: Checksum, checksum: bool, file: Bytes, p: nat): (r: Step)
    ensures r.Bad? || r.Fragment? ==> p < r.next <= |file|
  {
    var at := RecordStart(p);
    if |file| < at + HEADER_SIZE then Eof
    else
      var full := Boundary(at) <= |file|;
      var blockEnd := if full then Boundary(at) else |file|;
      assert at + HEADER_SIZE <= Boundary(at);
      StepInBlock(crc, checksum, file[at..blockEnd], full, at)
  }

  /** A record (or none, at the end), the offset after it, and the sizes of the drops reported. */
  datatype ReadResult = ReadResult(record: Option<Bytes>, next: nat, dropped: seq<nat>)

  /** What a physical record means to the reader of a logical one. */
  datatype Turn =
    | Done(record: Option<Bytes>, dropped: seq<nat>)
    | More(inRecord: bool, scratch: Bytes, dropped: seq<nat>)

  function TakeStep(step: Step, inRecord: bool, scratch: Bytes): (r: Turn)
    ensures step.Eof? ==> r.Done? && r.record.None?
  {
    match step
    case Eof => Done(None, [])
    case Bad(_, dropped) =>
      More(false, if inRecord then [] else scratch, dropped + if inRecord then [|scratch|] else [])
    case Fragment(kind, payload, _) =>
      var unfinished := if inRecord && scratch != [] then [|scratch|] else [];
      if kind == FULL_TYPE then Done(Some(payload), unfinished)
      else if kind == FIRST_TYPE then More(true, payload, unfinished)
      else if kind == MIDDLE_TYPE then
        if inRecord then More(true, scratch + payload, []) else More(false, scratch, [|payload|])
      else if kind == LAST_TYPE then
        if inRecord then Done(Some(scratch + payload), []) else More(false, scratch, [|payload|])
      else More(false, [], [|payload| + if inRecord then |scratch| else 0])
  }

  /** The next logical record from offset `p` on, in the middle of one when `inRecord`. */
  function NextRecord(crc: Checksum, checksum: bool, file: Bytes, p: nat, inRecord: bool, scratch: Bytes): (r: ReadResult)
    requires p <= |file|
    ensures p <= r.next <= |file| && (r.record.Some? ==> p < r.next)
    decreases |file| - p
  {
    var step := StepAt(crc, checksum, file, p);
    var next := if step.Eof? then |file| else step.next;
    match TakeStep(step, inRecord, scratch)
    case Done(record, dropped) => ReadResult(record, next, dropped)
    case More(inRecord1, scratch1, dropped) =>
      Dropping(dropped, NextRecord(crc, checksum, file, next, inRecord1, scratch1))
  }

  lemma NextRecordUnfolds(crc: Checksum, checksum: bool, file: Bytes, p: nat, inRecord: bool, scratch: Bytes)
    requires p <= |file|
    ensures var step := StepAt(crc, checksum, file, p);
            var next := if step.Eof? then |file| else step.next;
            var turn := TakeStep(step, inRecord, scratch);
            && (turn.Done? ==>
                  NextRecord(crc, checksum, file, p, inRecord, scratch) == ReadResult(turn.record, next, turn.dropped))
            && (turn.More? ==>
                  NextRecord(crc, checksum, file, p, inRecord, scratch) ==
                  Dropping(turn.dropped, NextRecord(crc, checksum, file, next, turn.inRecord, turn.scratch)))
  {
    hide StepAt, TakeStep, Dropping;
  }

  function Dropping(dropped: seq<nat>, r: ReadResult): ReadResult {
    r.(dropped := dropped + r.dropped)
  }

  lemma DroppingTwice(a: seq<nat>, b: seq<nat>, r: ReadResult)
    ensures Dropping(a, Dropping(b, r)) == Dropping(a + b, r)
  {
  }

  lemma DroppingDone(a: seq<nat>, record: Option<Bytes>, next: nat, dropped: seq<nat>)
    ensures Dropping(a, ReadResult(record, next, dropped)) == ReadResult(record, next, a + dropped)
  {
  }

  /** The buffer is the unread part of what was read of `file`, and lies in one block. The end of the
      file shows as a short read. */
  ghost predicate Holds(file: Bytes, pos: nat, buffer: Bytes, eof: bool)
    ensures Holds(file, pos, buffer, eof) ==>
              |buffer| <= pos <= |file| && (eof ==> pos == |file|)
  {
    && |buffer| <= pos <= |file|
    && buffer == file[pos - |buffer|..pos]
    && (eof ==> pos == |file|)
    && (!eof ==> pos % BLOCK_SIZE == 0)
    && (buffer != [] ==>
      && (pos - |buffer|) / BLOCK_SIZE == (pos - 1) / BLOCK_SIZE
      && (eof ==> |file| % BLOCK_SIZE != 0))
  }

  lemma NextBlock(file: Bytes, pos: nat, buffer: Bytes)
    requires Holds(file, pos, buffer, false) && |buffer| < HEADER_SIZE
    ensures var n := if |file| - pos < BLOCK_SIZE then |file| - pos else BLOCK_SIZE;
            Holds(file, pos + n, file[pos..pos + n], n < BLOCK_SIZE)
    ensures RecordStart(pos - |buffer|) == RecordStart(pos)
  {
    assert buffer != [] ==> (pos - |buffer|) % BLOCK_SIZE == BLOCK_SIZE - |buffer|;
  }

  lemma AtEnd(crc: Checksum, checksum: bool, file: Bytes, pos: nat, buffer: Bytes, start: nat)
    requires Holds(file, pos, buffer, true) && |buffer| < HEADER_SIZE
    requires RecordStart(pos - |buffer|) == RecordStart(start)
    ensures StepAt(crc, checksum, file, start).Eof? && Holds(file, pos, [], true)
  {
  }

  lemma InBlock(crc: Checksum, checksum: bool, file: Bytes, pos: nat, buffer: Bytes, eof: bool, start: nat)
    requires Holds(file, pos, buffer, eof) && |buffer| >= HEADER_SIZE
    requires RecordStart(pos - |buffer|) == RecordStart(start)
    ensures StepAt(crc, checksum, file, start) == StepInBlock(crc, checksum, buffer, !eof, pos - |buffer|)
  {
    hide StepInBlock;
    assert RecordStart(start) == pos - |buffer|;
    assert Boundary(pos - |buffer|) <= |file| <==> !eof;
    assert pos == if eof then |file| else Boundary(pos - |buffer|);
  }

  lemma Consume(file: Bytes, pos: nat, buffer: Bytes, eof: bool, k: nat)
    requires Holds(file, pos, buffer, eof) && k <= |buffer|
    ensures Holds(file, pos, buffer[k..], eof) && (k == |buffer| ==> buffer[k..] == [])
  {
    TailOfSlice(file, pos - |buffer|, pos, k);
    if k < |buffer| {
      assert (pos - |buffer|) / BLOCK_SIZE <= (pos - |buffer| + k) / BLOCK_SIZE <= (pos - 1) / BLOCK_SIZE;
    }
  }

  class Reader {
    const crc: Checksum
    const checksum: bool
    const file: Bytes
    /** How much of the file has been read into buffers. */
    var filePos: nat
    var buffer: Bytes
    var eof: bool
    /** Sizes of the drops reported as corruption. */
    var dropped: seq<nat>

    /** The offset of the first byte not yet taken. */
    ghost function Position(): int
      reads this
    {
      filePos - |buffer|
    }

    ghost predicate Valid()
      reads this
    {
      Holds(file, filePos, buffer, eof)
    }

    constructor (crc: Checksum, checksum: bool, file: Bytes)
      ensures Valid() && Position() == 0 && dropped == []
      ensures this.crc == crc && this.checksum == checksum && this.file == file
    {
      this.crc, this.checksum, this.file := crc, checksum, file;
      filePos, buffer, eof, dropped := 0, [], false, [];
    }

    /** Reads blocks until a header fits into the buffer; what is left of a block is a trailer. */
    method FillBuffer() returns (more: bool)
      requires Valid()
      modifies this
      ensures Valid() && dropped == old(dropped)
      ensures !more ==> StepAt(crc, checksum, file, old(Position())).Eof? && Position() == |file|
      ensures more ==> |buffer| >= HEADER_SIZE
      ensures more ==> StepAt(crc, checksum, file, old(Position()))
                       == StepInBlock(crc, checksum, buffer, !eof, filePos - |buffer|)
    {
      hide RecordStart, Holds, StepInBlock, StepAt;
      ghost var start := Position();
      while |buffer| < HEADER_SIZE
        invariant Valid() && dropped == old(dropped) && RecordStart(Position()) == RecordStart(start)
        decreases |file| - filePos, !eof
      {
        if eof {
          AtEnd(crc, checksum, file, filePos, buffer, start);
          buffer := [];
          return false;
        }
        NextBlock(file, filePos, buffer);
        var n := if |file| - filePos < BLOCK_SIZE then |file| - filePos else BLOCK_SIZE;
        buffer := file[filePos..filePos + n];
        filePos := filePos + n;
        if n < BLOCK_SIZE {
          eof := true;
        }
      }
      InBlock(crc, checksum, file, filePos, buffer, eof, start);
      return true;
    }

    method ReadPhysicalRecord() returns (r: Step)
      requires Valid()
      modifies this
      ensures Valid()
      ensures r == StepAt(crc, checksum, file, old(Position()))
      ensures Position() == if r.Eof? then |file| else r.next
      ensures dropped == old(dropped) + if r.Bad? then r.dropped else []
    {
      hide Unmask, DecodeFixed32, Length16, Holds, StepAt;
      var more := FillBuffer();
      if !more {
        return Eof;
      }
      var at: nat := filePos - |buffer|;
      Consume(file, filePos, buffer, eof, |buffer|);
      var length := Length16(buffer[4], buffer[5]);
      var kind := buffer[6];
      if HEADER_SIZE + length > |buffer| {
        var size := |buffer|;
        buffer := [];
        if !eof {
          dropped := dropped + [size];
          return Bad(filePos, [size]);
        }
        return Eof;
      }
      Consume(file, filePos, buffer, eof, HEADER_SIZE + length);
      if kind == ZERO_TYPE && length == 0 {
        buffer := [];
        return Bad(filePos, []);
      }
      if checksum && Unmask(DecodeFixed32(buffer[..4])) != crc(buffer[6..HEADER_SIZE + length]) {
        var size := |buffer|;
        buffer := [];
        dropped := dropped + [size];
        return Bad(filePos, [size]);
      }
      r := Fragment(kind, buffer[HEADER_SIZE..HEADER_SIZE + length], at + HEADER_SIZE + length);
      buffer := buffer[HEADER_SIZE + length..];
    }

    method ReadRecord() returns (record: Option<Bytes>)
      requires Valid()
      modifies this
      ensures Valid()
      ensures ReadResult(record, Position(), dropped)
           == Dropping(old(dropped), NextRecord(crc, checksum, file, old(Position()), false, []))
    {
      hide StepAt, NextRecord, Dropping, Holds;
      var inRecord := false;
      var scratch: Bytes := [];
      while true
        invariant Valid()
        invariant Dropping(dropped, NextRecord(crc, checksum, file, Position(), inRecord, scratch))
               == Dropping(old(dropped), NextRecord(crc, checksum, file, old(Position()), false, []))
        decreases |file| - Position()
      {
        ghost var p: nat, dropped0 := Position(), dropped;
        NextRecordUnfolds(crc, checksum, file, p, inRecord, scratch);
        var step := ReadPhysicalRecord();
        ghost var turn := TakeStep(step, inRecord, scratch);
        if turn.Done? {
          DroppingDone(dropped0, turn.record, Position(), turn.dropped);
        }
        assert dropped0 + [] == dropped0;
        DroppingTwice(dropped0, turn.dropped,
                      NextRecord(crc, checksum, file, Position(), turn.More? && turn.inRecord,
                                 if turn.More? then turn.scratch else []));
        match step
        case Eof =>
          return None;
        case Bad(_, d) =>
          assert dropped0 + (d + []) == dropped0 + d && dropped0 + (d + [|scratch|]) == dropped0 + d + [|scratch|];
          if inRecord {
            dropped := dropped + [|scratch|];
            inRecord, scratch := false, [];
          }
        case Fragment(kind, payload, _) =>
          if kind == FULL_TYPE {
            if inRecord && scratch != [] {
              dropped := dropped + [|scratch|];
            }
            return Some(payload);
          } else if kind == FIRST_TYPE {
            if inRecord && scratch != [] {
              dropped := dropped + [|scratch|];
            }
            scratch, inRecord := payload, true;
          } else if kind == MIDDLE_TYPE {
            if !inRecord {
              dropped := dropped + [|payload|];
            } else {
              scratch := scratch + payload;
            }
          } else if kind == LAST_TYPE {
            if !inRecord {
              dropped := dropped + [|payload|];
            } else {
              return Some(scratch + payload);
            }
          } else {
            dropped := dropped + [|payload| + if inRecord then |scratch| else 0];
            inRecord, scratch := false, [];
          }
      }
    }
  }

  /** Everything a client reads from offset `p` on, and every drop reported on the way. */
  function ReadAll(crc: Checksum, checksum: bool, file: Bytes, p: nat): (r: (seq<Bytes>, seq<nat>))
    requires p <= |file|
    decreases |file| - p
  {
    var one := NextRecord(crc, checksum, file, p, false, []);
    if one.record.None? then ([], one.dropped)
    else
      var rest := ReadAll(crc, checksum, file, one.next);
      ([one.record.value] + rest.0, one.dropped + rest.1)
  }

  /** `part` stands at offset `p` of `whole`. */
  ghost predicate StandsAt(whole: Bytes, p: nat, part: Bytes) {
    p + |part| <= |whole| && whole[p..p + |part|] == part
  }

  /** A physical record is read back if the file was cut after it, and reads as the end of the file if
      the cut is before its end. */
  lemma PhysicalReadsBack(crc: Checksum, checksum: bool, whole: Bytes, n: nat, p: nat, kind: Byte, payload: Bytes)
    requires n <= |whole| && 1 <= kind <= 4
    requires RecordStart(p) % BLOCK_SIZE + HEADER_SIZE + |payload| <= BLOCK_SIZE
    requires StandsAt(whole, RecordStart(p), Physical(crc, kind, payload))
    ensures var next := RecordStart(p) + HEADER_SIZE + |payload|;
            StepAt(crc, checksum, whole[..n], p) == if next <= n then Fragment(kind, payload, next) else Eof
  {
    hide Unmask, Mask, RecordStart, StepInBlock, Boundary, StandsAt;
    var at := RecordStart(p);
    var next := at + HEADER_SIZE + |payload|;
    if at + HEADER_SIZE <= n {
      var blockEnd := if Boundary(at) <= n then Boundary(at) else n;
      InOneBlock(at, HEADER_SIZE + |payload|);
      PhysicalStands(whole, n, at, Physical(crc, kind, payload));
      BlockReadsBack(crc, checksum, whole[..n][at..blockEnd], Boundary(at) <= n, at, kind, payload);
    }
  }

  lemma InOneBlock(at: nat, size: nat)
    requires at % BLOCK_SIZE + size <= BLOCK_SIZE
    ensures at + size <= Boundary(at)
  {
  }

  /** What stands in the file stands, as far as it goes, in a piece of it. */
  lemma PhysicalStands(whole: Bytes, n: nat, at: nat, part: Bytes)
    requires at <= n <= |whole| && StandsAt(whole, at, part)
    ensures forall e :: at <= e <= n ==>
                          (if e - at <= |part| then whole[..n][at..e] == part[..e - at] else whole[..n][at..e][..|part|] == part)
  {
    forall e | at <= e <= n
      ensures if e - at <= |part| then whole[..n][at..e] == part[..e - at] else whole[..n][at..e][..|part|] == part
    {
      PrefixSlice(whole, n, at, e);
      if e - at <= |part| {
        SliceOfSlice(whole, at, at + |part|, 0, e - at);
      } else {
        SliceOfSlice(whole, at, e, 0, |part|);
      }
    }
  }

  lemma BlockReadsBack(crc: Checksum, checksum: bool, buffer: Bytes, full: bool, at: nat, kind: Byte, payload: Bytes)
    requires |payload| < 0x1_0000 && 1 <= kind <= 4 && |buffer| >= HEADER_SIZE
    requires if |buffer| <= HEADER_SIZE + |payload| then buffer == Physical(crc, kind, payload)[..|buffer|]
             else buffer[..HEADER_SIZE + |payload|] == Physical(crc, kind, payload)
    requires |buffer| < HEADER_SIZE + |payload| ==> !full
    ensures StepInBlock(crc, checksum, buffer, full, at) ==
            if |buffer| < HEADER_SIZE + |payload| then Eof else Fragment(kind, payload, at + HEADER_SIZE + |payload|)
  {
    hide Unmask, Mask, Fixed;
    var physical := Physical(crc, kind, payload);
    assert StandsAt(physical, 0, physical) by {
      assert physical[0..0 + |physical|] == physical;
    }
    PhysicalParts(crc, physical, 0, kind, payload);
    assert buffer[4] == physical[4] && buffer[5] == physical[5] && buffer[6] == physical[6];
    if |buffer| >= |physical| {
      assert buffer[..|physical|] == physical;
      PrefixSlice(buffer, |physical|, 0, 4);
      PrefixSlice(buffer, |physical|, 6, |physical|);
      PrefixSlice(buffer, |physical|, HEADER_SIZE, |physical|);
      Fixed32RoundTrip(Mask(crc([kind] + payload)));
      MaskRoundTrip(crc([kind] + payload));
    }
  }

  lemma PhysicalParts(crc: Checksum, whole: Bytes, at: nat, kind: Byte, payload: Bytes)
    requires |payload| < 0x1_0000 && StandsAt(whole, at, Physical(crc, kind, payload))
    ensures Length16(whole[at + 4], whole[at + 5]) == |payload| && whole[at + 6] == kind
    ensures whole[at..at + 4] == Fixed(Mask(crc([kind] + payload)), 4)
    ensures whole[at + 6..at + HEADER_SIZE + |payload|] == [kind] + payload
    ensures whole[at + HEADER_SIZE..at + HEADER_SIZE + |payload|] == payload
  {
    hide Mask, Fixed;
    var sum := Fixed(Mask(crc([kind] + payload)), 4);
    var header: Bytes := [|payload| % 256, |payload| / 256];
    assert Physical(crc, kind, payload) == sum + header + ([kind] + payload) by {
      assert sum + [|payload| % 256, |payload| / 256, kind] + payload == sum + header + ([kind] + payload);
    }
    StandParts(whole, at, sum, header, [kind] + payload);
    assert whole[at + 4..at + 6][0] == header[0] && whole[at + 4..at + 6][1] == header[1];
    var tail := whole[at + 6..at + HEADER_SIZE + |payload|];
    assert tail[0] == kind;
    TailOfSlice(whole, at + 6, at + HEADER_SIZE + |payload|, 1);
    assert tail[1..] == payload;
  }

  lemma PrefixSlice(s: Bytes, n: nat, a: nat, b: nat)
    requires a <= b <= n <= |s|
    ensures s[..n][a..b] == s[a..b]
  {
  }

  /** One record, or the rest of one, read from a file cut at `n`. */
  lemma {:induction false} EmittedReadsBack(crc: Checksum, checksum: bool, whole: Bytes, n: nat, p: nat, data: Bytes,
                                            begin: bool, scratch: Bytes)
    requires p <= n <= |whole| && StandsAt(whole, p, Emitted(crc, p, data, begin))
    requires begin ==> scratch == []
    ensures var next := p + |Emitted(crc, p, data, begin)|;
            NextRecord(crc, checksum, whole[..n], p, !begin, scratch) ==
            if next <= n then ReadResult(Some(scratch + data), next, []) else ReadResult(None, n, [])
    decreases |data|, if FragmentLength(p, |data|) == 0 then 1 else 0
  {
    hide StepAt, Physical, NextRecord, Emitted, RecordStart, FragmentLength, StandsAt;
    var f := FragmentLength(p, |data|);
    var end := f == |data|;
    var kind := FragmentType(begin, end);
    var next := RecordStart(p) + HEADER_SIZE + f;
    FirstFragmentStands(crc, whole, p, data, begin);
    PhysicalReadsBack(crc, checksum, whole, n, p, kind, data[..f]);
    NextRecordUnfolds(crc, checksum, whole[..n], p, !begin, scratch);
    assert begin ==> scratch + data == data;
    if end {
      assert data[..f] == data;
    } else if next <= n {
      if f == 0 {
        FragmentProgress(p, |data|);
      }
      EmittedReadsBack(crc, checksum, whole, n, next, data[f..], false, scratch + data[..f]);
      assert scratch + data[..f] + data[f..] == scratch + data;
      assert begin ==> scratch + data[..f] == data[..f];
    }
  }

  lemma FragmentProgress(p: nat, left: nat)
    requires left > 0 && FragmentLength(p, left) == 0
    ensures FragmentLength(RecordStart(p) + HEADER_SIZE, left) > 0
  {
  }

  lemma FirstFragmentStands(crc: Checksum, whole: Bytes, p: nat, data: Bytes, begin: bool)
    requires StandsAt(whole, p, Emitted(crc, p, data, begin))
    ensures var f := FragmentLength(p, |data|);
            var next := RecordStart(p) + HEADER_SIZE + f;
            && StandsAt(whole, RecordStart(p), Physical(crc, FragmentType(begin, f == |data|), data[..f]))
            && (f == |data| ==> |Emitted(crc, p, data, begin)| == next - p)
            && (f < |data| ==>
                  && StandsAt(whole, next, Emitted(crc, next, data[f..], false))
                  && |Emitted(crc, p, data, begin)| == next - p + |Emitted(crc, next, data[f..], false)|)
  {
    hide Physical, Emitted, RecordStart, FragmentLength, Trailer, FragmentType;
    var f := FragmentLength(p, |data|);
    var next := RecordStart(p) + HEADER_SIZE + f;
    var trailer := Trailer(RecordStart(p) - p);
    var physical := Physical(crc, FragmentType(begin, f == |data|), data[..f]);
    var rest := if f == |data| then [] else Emitted(crc, next, data[f..], false);
    EmittedUnfolds(crc, p, data, begin);
    assert Emitted(crc, p, data, begin) == trailer + physical + rest;
    StandParts(whole, p, trailer, physical, rest);
  }

  lemma StandParts(whole: Bytes, p: nat, a: Bytes, b: Bytes, c: Bytes)
    requires StandsAt(whole, p, a + b + c)
    ensures StandsAt(whole, p, a) && StandsAt(whole, p + |a|, b) && StandsAt(whole, p + |a| + |b|, c)
  {
    SliceOfSlice(whole, p, p + |a + b + c|, 0, |a|);
    SliceOfSlice(whole, p, p + |a + b + c|, |a|, |a| + |b|);
    TailOfSlice(whole, p, p + |a + b + c|, |a| + |b|);
    assert (a + b + c)[0..|a|] == a && (a + b + c)[|a|..|a| + |b|] == b && (a + b + c)[|a| + |b|..] == c;
  }

  lemma ReadAllUnfolds(crc: Checksum, checksum: bool, file: Bytes, p: nat)
    requires p <= |file|
    ensures var one := NextRecord(crc, checksum, file, p, false, []);
            && (one.record.None? ==> ReadAll(crc, checksum, file, p) == ([], one.dropped))
            && (one.record.Some? ==>
                  ReadAll(crc, checksum, file, p) == ([one.record.value] + ReadAll(crc, checksum, file, one.next).0,
                                                      one.dropped + ReadAll(crc, checksum, file, one.next).1))
  {
    hide NextRecord;
  }

  /** The log of the first `k` records is the front of the log of all. */
  lemma {:induction false} LogFileGrows(crc: Checksum, records: seq<Bytes>, k: nat)
    requires k <= |records|
    ensures |LogFile(crc, records[..k])| <= |LogFile(crc, records)|
    ensures LogFile(crc, records)[..|LogFile(crc, records[..k])|] == LogFile(crc, records[..k])
    decreases |records|
  {
    hide Emitted;
    if k == |records| {
      assert records[..k] == records;
    } else {
      var shorter := records[..|records| - 1];
      LogFileGrows(crc, shorter, k);
      assert shorter[..k] == records[..k];
    }
  }

  /** Record `k` stands in the log right after the records before it. */
  lemma RecordStands(crc: Checksum, records: seq<Bytes>, k: nat)
    requires k < |records|
    ensures var before := LogFile(crc, records[..k]);
            var emitted := Emitted(crc, |before|, records[k], true);
            && StandsAt(LogFile(crc, records), |before|, emitted)
            && |LogFile(crc, records[..k + 1])| == |before| + |emitted|
  {
    hide Emitted;
    var before := LogFile(crc, records[..k]);
    var emitted := Emitted(crc, |before|, records[k], true);
    var some := records[..k + 1];
    assert some[..|some| - 1] == records[..k];
    assert LogFile(crc, some) == before + emitted;
    LogFileGrows(crc, records, k + 1);
    var whole := LogFile(crc, records);
    PrefixSlice(whole, |before| + |emitted|, |before|, |before| + |emitted|);
    assert (before + emitted)[|before|..] == emitted;
  }

  /** Whatever point the log is cut at, reading it gives exactly the records that lie wholly before the
      cut, and reports no corruption. */
  lemma {:induction false} CutLogReadsBack(crc: Checksum, checksum: bool, records: seq<Bytes>, n: nat, j: nat, k: nat)
    requires j <= k <= |records| && |LogFile(crc, records[..k])| <= n <= |LogFile(crc, records)|
    requires k < |records| ==> n < |LogFile(crc, records[..k + 1])|
    ensures |LogFile(crc, records[..j])| <= n
    ensures ReadAll(crc, checksum, LogFile(crc, records)[..n], |LogFile(crc, records[..j])|) == (records[j..k], [])
    decreases k - j
  {
    hide LogFile, NextRecord, Emitted, StandsAt, ReadAll;
    var whole, p := LogFile(crc, records), |LogFile(crc, records[..j])|;
    PrefixGrows(crc, records, j, k);
    ReadAllUnfolds(crc, checksum, whole[..n], p);
    if j < |records| {
      RecordStands(crc, records, j);
      EmittedReadsBack(crc, checksum, whole, n, p, records[j], true, []);
      assert [] + records[j] == records[j];
    }
    if j < k {
      PrefixGrows(crc, records, j + 1, k);
      CutLogReadsBack(crc, checksum, records, n, j + 1, k);
      assert records[j..k] == [records[j]] + records[j + 1..k];
      var one := NextRecord(crc, checksum, whole[..n], p, false, []);
      var rest := ReadAll(crc, checksum, whole[..n], one.next);
      assert one.dropped + rest.1 == [];
    } else if k == |records| {
      assert records[..k] == records && records[j..k] == [];
      NothingAtTheEnd(crc, checksum, whole[..n]);
    } else {
      assert records[j..k] == [];
    }
  }

  lemma PrefixGrows(crc: Checksum, records: seq<Bytes>, j: nat, k: nat)
    requires j <= k <= |records|
    ensures |LogFile(crc, records[..j])| <= |LogFile(crc, records[..k])|
  {
    hide LogFile;
    LogFileGrows(crc, records[..k], j);
    assert records[..k][..j] == records[..j];
  }

  lemma NothingAtTheEnd(crc: Checksum, checksum: bool, file: Bytes)
    ensures NextRecord(crc, checksum, file, |file|, false, []) == ReadResult(None, |file|, [])
  {
    hide StepInBlock;
  }

  /** The whole log reads back as the whole list. */
  lemma LogReadsBack(crc: Checksum, checksum: bool, records: seq<Bytes>)
    ensures ReadAll(crc, checksum, LogFile(crc, records), 0) == (records, [])
  {
    hide Emitted, ReadAll;
    var whole := LogFile(crc, records);
    assert records[..|records|] == records && records[0..|records|] == records && whole[..|whole|] == whole;
    assert records[..0] == [] && LogFile(crc, []) == [];
    CutLogReadsBack(crc, checksum, records, |whole|, 0, |records|);
  }

  /** Two writers in turn, the second one opened at the length the first one left, write one log. */
  method WriteInTwoRuns(crc: Checksum, first: seq<Bytes>, second: seq<Bytes>) returns (file: Bytes)
    ensures file == LogFile(crc, first + second)
  {
    var w := new Writer(crc);
    WriteAll(w, [], first);
    var w2 := new Writer.Reopen(crc, w.dest);
    assert [] + first == first;
    WriteAll(w2, first, second);
    file := w2.dest;
  }

  method WriteAll(w: Writer, ghost written: seq<Bytes>, records: seq<Bytes>)
    requires w.Valid() && w.dest == LogFile(w.crc, written)
    modifies w
    ensures w.Valid() && w.dest == LogFile(w.crc, written + records)
  {
    hide Emitted;
    assert written + records[..0] == written;
    for i := 0 to |records|
      invariant w.Valid() && w.dest == LogFile(w.crc, written + records[..i])
    {
      ghost var more := written + records[..i + 1];
      assert more[..|more| - 1] == written + records[..i];
      w.AddRecord(records[i]);
    }
    assert records[..|records|] == records;
  }

  /** The client's loop over a reader. */
  method ReadRecords(r: Reader) returns (records: seq<Bytes>)
    requires r.Valid()
    modifies r
    ensures r.Valid()
    ensures (records, r.dropped) == (ReadAll(r.crc, r.checksum, r.file, old(r.Position())).0,
                                     old(r.dropped) + ReadAll(r.crc, r.checksum, r.file, old(r.Position())).1)
  {
    hide NextRecord, Holds, ReadAll;
    ghost var all := ReadAll(r.crc, r.checksum, r.file, r.Position());
    records := [];
    var more := true;
    while more
      invariant r.Valid()
      invariant more ==> records + ReadAll(r.crc, r.checksum, r.file, r.Position()).0 == all.0
      invariant more ==> r.dropped + ReadAll(r.crc, r.checksum, r.file, r.Position()).1 == old(r.dropped) + all.1
      invariant !more ==> records == all.0 && r.dropped == old(r.dropped) + all.1
      decreases more, |r.file| - r.Position()
    {
      ReadAllUnfolds(r.crc, r.checksum, r.file, r.Position());
      var record := r.ReadRecord();
      if record.Some? {
        records := records + [record.value];
      } else {
        more := false;
      }
    }
  }
}
