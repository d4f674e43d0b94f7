/** Damaged logs (db/log_reader.cc): with checksums on, the reader takes only what a writer could have written,
    and damage in some blocks costs no record that lies in other blocks. */
module LogDamage {
  import opened Keys
  import opened Coding
  import opened Log
  import opened Sequences

  // ----- nothing is made up -----

  /** A fragment of a record: where it starts, its type, and what it holds. */
  datatype Piece = Piece(at: nat, kind: Byte, payload: Bytes) {
    function End(): nat {
      at + 7 + |payload|
    }
  }

  /** The piece is in the file byte by byte as a writer would write it, within one block. */
  ghost predicate Written(crc: Checksum, file: Bytes, x: Piece) {
    && x.at / 32768 == (x.End() - 1) / 32768 && |x.payload| < 0x1_0000
    && StandsAt(file, x.at, Physical(crc, x.kind, x.payload))
  }

  /** The reader takes a physical record exactly when its bytes are what a writer would write; only an empty one
      of type zero is passed over. */
  lemma TakenIsWritten(crc: Checksum, file: Bytes, p: nat, kind: Byte, payload: Bytes, next: nat)
    ensures StepAt(crc, true, file, p) == Fragment(kind, payload, next)
       <==> var x := Piece(RecordStart(p), kind, payload);
            Written(crc, file, x) && next == x.End() && !(kind == 0 && payload == [])
  {
    hide Physical, Mask, Unmask, Fixed, StandsAt, RecordStart;
    var at := RecordStart(p);
    var x := Piece(at, kind, payload);
    var step := StepAt(crc, true, file, p);
    SameBlock(at, 7 + |payload|);
    if step == Fragment(kind, payload, next) {
      TakenStands(crc, file, p, kind, payload, next);
    }
    if Written(crc, file, x) && !(kind == 0 && payload == []) {
      WrittenIsTaken(crc, file, p, kind, payload);
    }
  }

  lemma SameBlock(at: nat, size: nat)
    requires size > 0
    ensures at / 32768 == (at + size - 1) / 32768 <==> at + size <= Boundary(at)
  {
  }

  lemma TakenStands(crc: Checksum, file: Bytes, p: nat, kind: Byte, payload: Bytes, next: nat)
    requires StepAt(crc, true, file, p) == Fragment(kind, payload, next)
    ensures var at := RecordStart(p);
            && next == at + 7 + |payload| <= Boundary(at) && |payload| < 0x1_0000
            && StandsAt(file, at, Physical(crc, kind, payload)) && !(kind == 0 && payload == [])
  {
    hide Mask, Unmask, Fixed, RecordStart;
    var at := RecordStart(p);
    var blockEnd := if Boundary(at) <= |file| then Boundary(at) else |file|;
    var b := file[at..blockEnd];
    FixedBack(b[..4]);
    MaskBack(DecodeFixed32(b[..4]));
    LengthBack(b[4], b[5]);
    assert b[6..7 + |payload|] == [kind] + payload;
    assert b[..7 + |payload|] == Physical(crc, kind, payload);
    assert file[at..next] == b[..7 + |payload|];
  }

  /** Four bytes are the encoding of the number they hold. */
  lemma FixedBack(b: Bytes)
    requires |b| == 4
    ensures Fixed(FixedValue(b), 4) == b
  {
    FixedOf(b);
  }

  lemma {:induction false} FixedOf(b: Bytes)
    ensures Fixed(FixedValue(b), |b|) == b
  {
    if b != [] {
      FixedOf(b[1..]);
    }
  }

  lemma MaskBack(masked: Word32)
    ensures Mask(Unmask(masked)) == masked
  {
    var rot := (masked - MASK_DELTA) % TWO_32;
    var crc := Unmask(masked);
    assert rot / 0x2_0000 < 0x8000;
    assert crc / 0x8000 == rot % 0x2_0000 && crc % 0x8000 == rot / 0x2_0000;
    assert (rot + MASK_DELTA) % TWO_32 == masked;
  }

  lemma LengthBack(low: Byte, high: Byte)
    ensures Length16(low, high) % 256 == low && Length16(low, high) / 256 == high
  {
  }

  lemma WrittenIsTaken(crc: Checksum, file: Bytes, p: nat, kind: Byte, payload: Bytes)
    requires |payload| < 0x1_0000 && RecordStart(p) + 7 + |payload| <= Boundary(RecordStart(p))
    requires StandsAt(file, RecordStart(p), Physical(crc, kind, payload)) && !(kind == 0 && payload == [])
    ensures StepAt(crc, true, file, p) == Fragment(kind, payload, RecordStart(p) + 7 + |payload|)
  {
    hide Mask, Unmask, Fixed, Physical, RecordStart;
    var at := RecordStart(p);
    var blockEnd := if Boundary(at) <= |file| then Boundary(at) else |file|;
    var b := file[at..blockEnd];
    PhysicalParts(crc, file, at, kind, payload);
    Fixed32RoundTrip(Mask(crc([kind] + payload)));
    MaskRoundTrip(crc([kind] + payload));
    SliceOfSlice(file, at, blockEnd, 0, 4);
    SliceOfSlice(file, at, blockEnd, 6, 7 + |payload|);
    SliceOfSlice(file, at, blockEnd, 7, 7 + |payload|);
    assert b[0..4] == b[..4];
  }

  /** Anything else takes the rest of its block with it, and is reported with so many bytes, unless it is empty
      and of type zero; what the end of the file cuts off is the end. */
  lemma RefusedInBytes(crc: Checksum, file: Bytes, p: nat)
    requires RecordStart(p) + 7 <= |file|
    ensures var step, at := StepAt(crc, true, file, p), RecordStart(p);
            var full := at - at % 32768 + 32768 <= |file|;
            var left := if full then 32768 - at % 32768 else |file| - at;
            var length := (file[at + 4] as int) + 256 * (file[at + 5] as int);
            && (step.Eof? <==> !full && 7 + length > left)
            && (step.Bad? ==> step == Bad(at + left, if length == 0 && file[at + 6] == 0 then [] else [left]))
  {
    hide RecordStart, Unmask, DecodeFixed32;
    var at := RecordStart(p);
    var blockEnd := if Boundary(at) <= |file| then Boundary(at) else |file|;
    assert forall i :: 0 <= i < 7 ==> file[at..blockEnd][i] == file[at + i];
  }

  /** The pieces follow each other, each where the next physical record starts. */
  ghost predicate InARow(pieces: seq<Piece>) {
    forall i, j :: 0 <= i && j == i + 1 && j < |pieces| ==> pieces[j].at == RecordStart(pieces[i].End())
  }

  /** A first piece and any number of middle ones. */
  ghost predicate Begun(pieces: seq<Piece>) {
    pieces != [] && pieces[0].kind == 2 && forall i :: 1 <= i < |pieces| ==> pieces[i].kind == 3
  }

  /** One whole piece, or a first, some middle ones, and a last. */
  ghost predicate Complete(pieces: seq<Piece>) {
    || (|pieces| == 1 && pieces[0].kind == 1)
    || (pieces != [] && Begun(pieces[..|pieces| - 1]) && pieces[|pieces| - 1].kind == 4)
  }

  ghost function Contents(pieces: seq<Piece>): Bytes {
    if pieces == [] then [] else Contents(pieces[..|pieces| - 1]) + pieces[|pieces| - 1].payload
  }

  ghost predicate AllWritten(crc: Checksum, file: Bytes, pieces: seq<Piece>) {
    forall i :: 0 <= i < |pieces| ==> Written(crc, file, pieces[i])
  }

  /** The record is in the file, in pieces as a writer would write it. */
  ghost predicate Holds(crc: Checksum, file: Bytes, record: Bytes) {
    exists pieces :: Complete(pieces) && InARow(pieces) && AllWritten(crc, file, pieces) && Contents(pieces) == record
  }

  /** Inside a record, `scratch` is what its pieces up to `p` hold. */
  ghost predicate Collected(crc: Checksum, file: Bytes, p: nat, inRecord: bool, scratch: Bytes, pieces: seq<Piece>) {
    inRecord ==>
      && Begun(pieces) && InARow(pieces) && AllWritten(crc, file, pieces) && Contents(pieces) == scratch
      && pieces[|pieces| - 1].End() == p
  }

  /** With checksums on, whatever is in the file, a record that is read is one that was written. */
  lemma {:induction false} ReadIsWritten(crc: Checksum, file: Bytes, p: nat, inRecord: bool, scratch: Bytes, pieces: seq<Piece>)
    requires p <= |file| && Collected(crc, file, p, inRecord, scratch, pieces)
    ensures var r := NextRecord(crc, true, file, p, inRecord, scratch).record; r.Some? ==> Holds(crc, file, r.value)
    decreases |file| - p
  {
    hide StepAt, Written, RecordStart, NextRecord, Collected, Holds, TakeStep;
    var step := StepAt(crc, true, file, p);
    NextRecordUnfolds(crc, true, file, p, inRecord, scratch);
    if step.Fragment? {
      TakenIsWritten(crc, file, p, step.kind, step.payload, step.next);
    }
    var pieces1 := PieceTaken(crc, file, p, inRecord, scratch, pieces);
    var turn := TakeStep(step, inRecord, scratch);
    if turn.More? {
      StepGoesOn(step, inRecord, scratch);
      ReadIsWritten(crc, file, step.next, turn.inRecord, turn.scratch, pieces1);
    }
  }

  lemma StepGoesOn(step: Step, inRecord: bool, scratch: Bytes)
    ensures TakeStep(step, inRecord, scratch).More? ==> !step.Eof?
  {
  }

  lemma PieceTaken(crc: Checksum, file: Bytes, p: nat, inRecord: bool, scratch: Bytes, pieces: seq<Piece>)
      returns (pieces1: seq<Piece>)
    requires Collected(crc, file, p, inRecord, scratch, pieces)
    requires var step := StepAt(crc, true, file, p);
             step.Fragment? ==>
               var x := Piece(RecordStart(p), step.kind, step.payload); Written(crc, file, x) && step.next == x.End()
    ensures var step := StepAt(crc, true, file, p);
            match TakeStep(step, inRecord, scratch)
            case Done(record, _) => record.Some? ==> Holds(crc, file, record.value)
            case More(inRecord1, scratch1, _) =>
              step.Eof? || Collected(crc, file, step.next, inRecord1, scratch1, pieces1)
  {
    hide StepAt, Written, RecordStart;
    var step := StepAt(crc, true, file, p);
    pieces1 := pieces;
    if step.Fragment? {
      var x := Piece(RecordStart(p), step.kind, step.payload);
      OnePiece(crc, file, x);
      if inRecord {
        OneMorePiece(crc, file, p, scratch, pieces, x);
      }
      pieces1 := if step.kind == 2 then [x] else pieces + [x];
    }
  }

  lemma OnePiece(crc: Checksum, file: Bytes, x: Piece)
    requires Written(crc, file, x)
    ensures x.kind == 1 ==> Holds(crc, file, x.payload)
    ensures x.kind == 2 ==> Collected(crc, file, x.End(), true, x.payload, [x])
  {
    hide Written, RecordStart;
    assert [x][..0] == [];
    assert Contents([x]) == [] + x.payload == x.payload;
    assert AllWritten(crc, file, [x]) && InARow([x]);
    if x.kind == 1 {
      assert Complete([x]);
    }
  }

  lemma OneMorePiece(crc: Checksum, file: Bytes, p: nat, scratch: Bytes, pieces: seq<Piece>, x: Piece)
    requires Collected(crc, file, p, true, scratch, pieces) && Written(crc, file, x) && x.at == RecordStart(p)
    ensures x.kind == 3 ==> Collected(crc, file, x.End(), true, scratch + x.payload, pieces + [x])
    ensures x.kind == 4 ==> Holds(crc, file, scratch + x.payload)
  {
    hide Written, RecordStart;
    var more := pieces + [x];
    assert more[..|pieces|] == pieces;
    assert Contents(more) == scratch + x.payload;
    assert AllWritten(crc, file, more) && InARow(more);
    if x.kind == 4 {
      assert Complete(more);
    }
  }

  /** Every record that a client gets from any file is in the file, checksums and all. */
  lemma {:induction false} AllReadIsWritten(crc: Checksum, file: Bytes, p: nat)
    requires p <= |file|
    ensures forall i :: 0 <= i < |ReadAll(crc, true, file, p).0| ==> Holds(crc, file, ReadAll(crc, true, file, p).0[i])
    decreases |file| - p
  {
    hide NextRecord, Holds, ReadAll;
    ReadAllUnfolds(crc, true, file, p);
    ReadIsWritten(crc, file, p, false, [], []);
    var one := NextRecord(crc, true, file, p, false, []);
    if one.record.Some? {
      AllReadIsWritten(crc, file, one.next);
    }
  }

  // ----- damage stays local -----

  /** What is read from `p` on, in the middle of a record when `inRecord`. */
  ghost function ReadOn(crc: Checksum, checksum: bool, file: Bytes, p: nat, inRecord: bool, scratch: Bytes): seq<Bytes>
    requires p <= |file|
  {
    var r := NextRecord(crc, checksum, file, p, inRecord, scratch);
    if r.record.None? then [] else [r.record.value] + ReadAll(crc, checksum, file, r.next).0
  }

  lemma ReadOnFresh(crc: Checksum, checksum: bool, file: Bytes, p: nat)
    requires p <= |file|
    ensures ReadOn(crc, checksum, file, p, false, []) == ReadAll(crc, checksum, file, p).0
  {
    hide NextRecord;
  }

  /** One step: a record or nothing comes out, and reading goes on behind it in some state. */
  lemma OneStep(crc: Checksum, checksum: bool, file: Bytes, p: nat, inRecord: bool, scratch: Bytes)
      returns (x: seq<Bytes>, inRecord1: bool, scratch1: Bytes)
    requires p <= |file| && !StepAt(crc, checksum, file, p).Eof?
    ensures StepAt(crc, checksum, file, p).next <= |file|
    ensures ReadOn(crc, checksum, file, p, inRecord, scratch)
         == x + ReadOn(crc, checksum, file, StepAt(crc, checksum, file, p).next, inRecord1, scratch1)
    ensures match TakeStep(StepAt(crc, checksum, file, p), inRecord, scratch)
            case Done(record, _) => record.Some? && x == [record.value] && !inRecord1 && scratch1 == []
            case More(inRecord2, scratch2, _) => x == [] && inRecord1 == inRecord2 && scratch1 == scratch2
  {
    hide NextRecord, StepAt;
    NextRecordUnfolds(crc, checksum, file, p, inRecord, scratch);
    var step := StepAt(crc, checksum, file, p);
    match TakeStep(step, inRecord, scratch)
    case Done(record, _) =>
      x, inRecord1, scratch1 := [record.value], false, [];
      ReadOnFresh(crc, checksum, file, step.next);
    case More(inRecord2, scratch2, _) =>
      x, inRecord1, scratch1 := [], inRecord2, scratch2;
  }

  /** What is read depends only on where the next physical record starts. */
  lemma SameStart(crc: Checksum, checksum: bool, file: Bytes, p: nat, q: nat, inRecord: bool, scratch: Bytes)
    requires p <= |file| && q <= |file| && RecordStart(p) == RecordStart(q)
    ensures ReadOn(crc, checksum, file, p, inRecord, scratch) == ReadOn(crc, checksum, file, q, inRecord, scratch)
  {
    hide NextRecord, RecordStart, StepInBlock;
    NextRecordUnfolds(crc, checksum, file, p, inRecord, scratch);
    NextRecordUnfolds(crc, checksum, file, q, inRecord, scratch);
  }

  lemma StartBefore(p: nat, e: nat)
    requires e % 32768 == 0
    ensures p <= e <==> RecordStart(p) <= e
    ensures RecordStart(e) == e
    ensures RecordStart(p) < e ==> Boundary(RecordStart(p)) <= e
    ensures p <= Boundary(RecordStart(p))
  {
  }

  /** No step goes over the end of a block. */
  lemma StepInsideBlock(crc: Checksum, checksum: bool, file: Bytes, p: nat)
    requires Boundary(RecordStart(p)) <= |file|
    ensures var step := StepAt(crc, checksum, file, p); !step.Eof? && p < step.next <= Boundary(RecordStart(p))
  {
    hide RecordStart, Unmask, DecodeFixed32;
    InOneBlock(RecordStart(p), 7);
  }

  /** From any place and in any state, over anything, the reader comes to the end of a block. */
  lemma {:induction false} ToBlockEnd(crc: Checksum, checksum: bool, file: Bytes, p: nat, e: nat, inRecord: bool, scratch: Bytes)
      returns (x: seq<Bytes>, inRecord1: bool, scratch1: Bytes)
    requires p <= e <= |file| && e % 32768 == 0
    ensures ReadOn(crc, checksum, file, p, inRecord, scratch) == x + ReadOn(crc, checksum, file, e, inRecord1, scratch1)
    decreases e - p
  {
    hide ReadOn, StepAt, RecordStart, Boundary, TakeStep;
    StartBefore(p, e);
    if RecordStart(p) == e {
      SameStart(crc, checksum, file, p, e, inRecord, scratch);
      x, inRecord1, scratch1 := [], inRecord, scratch;
    } else {
      StepInsideBlock(crc, checksum, file, p);
      var y, inRecord2, scratch2 := OneStep(crc, checksum, file, p, inRecord, scratch);
      var next := StepAt(crc, checksum, file, p).next;
      var z;
      z, inRecord1, scratch1 := ToBlockEnd(crc, checksum, file, next, e, inRecord2, scratch2);
      x := y + z;
      assert y + (z + ReadOn(crc, checksum, file, e, inRecord1, scratch1)) == x + ReadOn(crc, checksum, file, e, inRecord1, scratch1);
    }
  }

  /** A physical record that stands in the file is taken. */
  lemma StandsIsTaken(crc: Checksum, checksum: bool, file: Bytes, p: nat, data: Bytes, begin: bool)
    requires var f := FragmentLength(p, |data|);
             StandsAt(file, RecordStart(p), Physical(crc, FragmentType(begin, f == |data|), data[..f]))
    ensures var f := FragmentLength(p, |data|);
            var next := RecordStart(p) + 7 + f;
            StepAt(crc, checksum, file, p) == Fragment(FragmentType(begin, f == |data|), data[..f], next) && next <= |file|
  {
    hide Physical, StepAt, RecordStart, FragmentLength;
    var f := FragmentLength(p, |data|);
    PhysicalReadsBack(crc, checksum, file, |file|, p, FragmentType(begin, f == |data|), data[..f]);
    assert file[..|file|] == file;
    StandsFits(file, RecordStart(p), Physical(crc, FragmentType(begin, f == |data|), data[..f]));
  }

  lemma StandsFits(file: Bytes, p: nat, part: Bytes)
    requires StandsAt(file, p, part)
    ensures p + |part| <= |file|
  {
  }

  /** What stands behind offset `e` stands in any file that is the same from there on. */
  lemma StandsBehind(log: Bytes, file: Bytes, e: nat, p: nat, part: Bytes)
    requires |file| == |log| && e <= |log| && file[e..] == log[e..] && e <= p && StandsAt(log, p, part)
    ensures StandsAt(file, p, part)
  {
    assert log[p..p + |part|] == log[e..][p - e..p - e + |part|];
    assert file[p..p + |part|] == file[e..][p - e..p - e + |part|];
  }

  lemma StandsInFront(log: Bytes, file: Bytes, s: nat, p: nat, part: Bytes)
    requires s <= |log| && s <= |file| && file[..s] == log[..s] && p + |part| <= s && StandsAt(log, p, part)
    ensures StandsAt(file, p, part)
  {
    assert log[p..p + |part|] == log[..s][p..p + |part|];
    assert file[p..p + |part|] == file[..s][p..p + |part|];
  }

  /** A record behind the damage is read in whatever state the reader is. */
  lemma RecordIsRead(crc: Checksum, checksum: bool, log: Bytes, file: Bytes, e: nat, p: nat, data: Bytes, inRecord: bool, scratch: Bytes)
    requires |file| == |log| && e <= |log| && file[e..] == log[e..] && e <= RecordStart(p)
    requires StandsAt(log, p, Emitted(crc, p, data, true))
    ensures p + |Emitted(crc, p, data, true)| <= |file|
    ensures ReadOn(crc, checksum, file, p, inRecord, scratch)
         == [data] + ReadAll(crc, checksum, file, p + |Emitted(crc, p, data, true)|).0
  {
    hide StandsAt, Physical, NextRecord, Emitted, RecordStart, FragmentLength, StepAt, ReadAll;
    var f := FragmentLength(p, |data|);
    var next := RecordStart(p) + 7 + f;
    FirstFragmentStands(crc, log, p, data, true);
    StandsBehind(log, file, e, RecordStart(p), Physical(crc, FragmentType(true, f == |data|), data[..f]));
    StandsIsTaken(crc, checksum, file, p, data, true);
    NextRecordUnfolds(crc, checksum, file, p, inRecord, scratch);
    if f == |data| {
      assert data[..f] == data;
    } else {
      StandsBehind(log, file, e, next, Emitted(crc, next, data[f..], false));
      StandsFits(file, next, Emitted(crc, next, data[f..], false));
      EmittedReadsBack(crc, checksum, file, |file|, next, data[f..], false, data[..f]);
      assert file[..|file|] == file && data[..f] + data[f..] == data;
    }
  }

  /** The rest of a record, from the end of the damage on, is passed in whatever state the reader is. */
  lemma {:induction false} RestIsPassed(crc: Checksum, checksum: bool, log: Bytes, file: Bytes, e: nat, p: nat, data: Bytes,
                                        begin: bool, inRecord: bool, scratch: Bytes)
      returns (x: seq<Bytes>, inRecord1: bool, scratch1: Bytes)
    requires |file| == |log| && e <= |log| && e % 32768 == 0 && file[e..] == log[e..]
    requires p <= |log| && StandsAt(log, p, Emitted(crc, p, data, begin))
    requires e <= RecordStart(p + |Emitted(crc, p, data, begin)|)
    ensures p + |Emitted(crc, p, data, begin)| <= |file|
    ensures var q := if RecordStart(p) <= e then e else p;
            ReadOn(crc, checksum, file, q, inRecord, scratch)
            == x + ReadOn(crc, checksum, file, p + |Emitted(crc, p, data, begin)|, inRecord1, scratch1)
    decreases |data|, if FragmentLength(p, |data|) == 0 then 1 else 0
  {
    hide StandsAt, Physical, ReadOn, Emitted, RecordStart, FragmentLength, StepAt, TakeStep, Boundary, FragmentType;
    var f := FragmentLength(p, |data|);
    var next := RecordStart(p) + 7 + f;
    var end := p + |Emitted(crc, p, data, begin)|;
    StandsFits(log, p, Emitted(crc, p, data, begin));
    FirstFragmentStands(crc, log, p, data, begin);
    StartBefore(p, e);
    StartBefore(next, e);
    StartBefore(end, e);
    FragmentInBlock(p, |data|);
    if f < |data| && f == 0 {
      FragmentProgress(p, |data|);
    }
    if RecordStart(p) < e {
      if f == |data| {
        SameStart(crc, checksum, file, e, end, inRecord, scratch);
        x, inRecord1, scratch1 := [], inRecord, scratch;
      } else {
        x, inRecord1, scratch1 := RestIsPassed(crc, checksum, log, file, e, next, data[f..], false, inRecord, scratch);
      }
    } else {
      if RecordStart(p) == e {
        SameStart(crc, checksum, file, p, e, inRecord, scratch);
      }
      StandsBehind(log, file, e, RecordStart(p), Physical(crc, FragmentType(begin, f == |data|), data[..f]));
      StandsIsTaken(crc, checksum, file, p, data, begin);
      x, inRecord1, scratch1 := OneStep(crc, checksum, file, p, inRecord, scratch);
      if f < |data| {
        var y := x;
        var z;
        z, inRecord1, scratch1 := RestIsPassed(crc, checksum, log, file, e, next, data[f..], false, inRecord1, scratch1);
        x := y + z;
        assert y + (z + ReadOn(crc, checksum, file, end, inRecord1, scratch1)) == x + ReadOn(crc, checksum, file, end, inRecord1, scratch1);
      }
    }
  }

  lemma FragmentInBlock(p: nat, left: nat)
    ensures RecordStart(p) + 7 + FragmentLength(p, left) <= Boundary(RecordStart(p))
  {
  }

  /** Behind the damage all records are read, in whatever state the reader is. */
  lemma {:induction false} BehindIsRead(crc: Checksum, checksum: bool, records: seq<Bytes>, file: Bytes, e: nat, k: nat,
                                        inRecord: bool, scratch: Bytes)
    requires var log := LogFile(crc, records); |file| == |log| && e <= |log| && file[e..] == log[e..]
    requires k <= |records| && e <= RecordStart(|LogFile(crc, records[..k])|)
    ensures |LogFile(crc, records[..k])| <= |file|
    ensures ReadOn(crc, checksum, file, |LogFile(crc, records[..k])|, inRecord, scratch) == records[k..]
    decreases |records| - k
  {
    hide StandsAt, Emitted, RecordStart, ReadOn, LogFile, ReadAll;
    var log, p := LogFile(crc, records), |LogFile(crc, records[..k])|;
    PrefixGrows(crc, records, k, |records|);
    assert records[..|records|] == records;
    if k == |records| {
      NothingOn(crc, checksum, file, inRecord, scratch);
    } else {
      RecordStands(crc, records, k);
      RecordIsRead(crc, checksum, log, file, e, p, records[k], inRecord, scratch);
      var next := |LogFile(crc, records[..k + 1])|;
      StartsInOrder(p, next);
      BehindIsRead(crc, checksum, records, file, e, k + 1, false, []);
      ReadOnFresh(crc, checksum, file, next);
      assert records[k..] == [records[k]] + records[k + 1..];
    }
  }

  lemma NothingOn(crc: Checksum, checksum: bool, file: Bytes, inRecord: bool, scratch: Bytes)
    ensures ReadOn(crc, checksum, file, |file|, inRecord, scratch) == []
  {
    hide StepInBlock;
  }

  lemma StartsInOrder(p: nat, q: nat)
    requires p <= q
    ensures RecordStart(p) <= RecordStart(q)
  {
  }

  /** In front of the damage all records are read first. */
  lemma {:induction false} FrontIsRead(crc: Checksum, checksum: bool, records: seq<Bytes>, file: Bytes, s: nat, i: nat, j: nat)
    requires var log := LogFile(crc, records); s <= |log| && s <= |file| && file[..s] == log[..s]
    requires i <= j <= |records| && |LogFile(crc, records[..j])| <= s
    ensures |LogFile(crc, records[..i])| <= s
    ensures ReadAll(crc, checksum, file, |LogFile(crc, records[..i])|).0
         == records[i..j] + ReadAll(crc, checksum, file, |LogFile(crc, records[..j])|).0
    decreases j - i
  {
    hide StandsAt, Emitted, LogFile, ReadAll, NextRecord;
    var log, p := LogFile(crc, records), |LogFile(crc, records[..i])|;
    PrefixGrows(crc, records, i, j);
    if i == j {
      assert records[i..j] == [];
    } else {
      RecordStands(crc, records, i);
      PrefixGrows(crc, records, i + 1, j);
      StandsInFront(log, file, s, p, Emitted(crc, p, records[i], true));
      EmittedReadsBack(crc, checksum, file, |file|, p, records[i], true, []);
      assert file[..|file|] == file && [] + records[i] == records[i];
      ReadAllUnfolds(crc, checksum, file, p);
      FrontIsRead(crc, checksum, records, file, s, i + 1, j);
      assert records[i..j] == [records[i]] + records[i + 1..j];
    }
  }

  /** From the end of the damage to a record behind it. */
  lemma {:induction false} MiddleIsPassed(crc: Checksum, checksum: bool, records: seq<Bytes>, file: Bytes, e: nat, m: nat, k: nat,
                                          inRecord: bool, scratch: Bytes)
      returns (x: seq<Bytes>)
    requires var log := LogFile(crc, records); |file| == |log| && e <= |log| && file[e..] == log[e..]
    requires e % 32768 == 0 && m <= k <= |records|
    requires |LogFile(crc, records[..m])| <= e <= RecordStart(|LogFile(crc, records[..k])|)
    ensures ReadOn(crc, checksum, file, e, inRecord, scratch) == x + records[k..]
    decreases k - m
  {
    hide StandsAt, Emitted, RecordStart, ReadOn, LogFile;
    var log, p := LogFile(crc, records), |LogFile(crc, records[..m])|;
    StartBefore(p, e);
    if e == RecordStart(p) {
      BehindIsRead(crc, checksum, records, file, e, m, inRecord, scratch);
      SameStart(crc, checksum, file, p, e, inRecord, scratch);
      x := records[m..k];
      assert records[m..] == x + records[k..];
    } else {
      var next := |LogFile(crc, records[..m + 1])|;
      RecordStands(crc, records, m);
      StartBefore(next, e);
      if e <= RecordStart(next) {
        var y, inRecord1, scratch1 := RestIsPassed(crc, checksum, log, file, e, p, records[m], true, inRecord, scratch);
        BehindIsRead(crc, checksum, records, file, e, m + 1, inRecord1, scratch1);
        x := y + records[m + 1..k];
        assert records[m + 1..] == records[m + 1..k] + records[k..];
        assert y + (records[m + 1..k] + records[k..]) == x + records[k..];
      } else {
        x := MiddleIsPassed(crc, checksum, records, file, e, m + 1, k, inRecord, scratch);
      }
    }
  }

  /** Whatever happens to the blocks from `s` to `e`, the records that end before them are read first, and those
      that start behind them last. */
  lemma DamageStaysLocal(crc: Checksum, checksum: bool, records: seq<Bytes>, file: Bytes, s: nat, e: nat, j: nat, k: nat)
    requires var log := LogFile(crc, records); |file| == |log| && s <= e <= |log| && file[..s] == log[..s] && file[e..] == log[e..]
    requires e % 32768 == 0 && j <= k <= |records|
    requires |LogFile(crc, records[..j])| <= s && e <= RecordStart(|LogFile(crc, records[..k])|)
    ensures exists x :: ReadAll(crc, checksum, file, 0).0 == records[..j] + x + records[k..]
  {
    hide StandsAt, Emitted, RecordStart, ReadOn, LogFile, ReadAll;
    var p := |LogFile(crc, records[..j])|;
    NoRecordsNoLog(crc, records);
    FrontIsRead(crc, checksum, records, file, s, 0, j);
    ReadOnFresh(crc, checksum, file, p);
    var y, inRecord, scratch := ToBlockEnd(crc, checksum, file, p, e, false, []);
    var z := MiddleIsPassed(crc, checksum, records, file, e, j, k, inRecord, scratch);
    var x := y + z;
    assert records[0..j] == records[..j];
    assert records[..j] + (y + (z + records[k..])) == records[..j] + x + records[k..];
  }

  lemma NoRecordsNoLog(crc: Checksum, records: seq<Bytes>)
    ensures LogFile(crc, records[..0]) == []
  {
  }
}
