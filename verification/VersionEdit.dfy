/** The record of changes to the set of files, and its encoding (db/version_edit.h, db/version_edit.cc). */
module VersionEdit {
  import opened Keys
  import opened Sequences
  import opened Coding

  const COMPARATOR: nat := 1
  const LOG_NUMBER: nat := 2
  const NEXT_FILE_NUMBER: nat := 3
  const LAST_SEQUENCE: nat := 4
  const COMPACT_POINTER: nat := 5
  const DELETED_FILE: nat := 6
  const NEW_FILE: nat := 7
  const PREV_LOG_NUMBER: nat := 9

  const NUM_LEVELS: nat := 7

  /** A file as the edit records it; the keys are encoded internal keys. */
  datatype FileRecord = FileRecord(number: nat, fileSize: nat, smallest: Bytes, largest: Bytes)

  /** One tagged piece of an encoded edit. */
  datatype Field =
    | Comparator(name: Bytes)
    | LogNumber(number: nat)
    | PrevLogNumber(number: nat)
    | NextFileNumber(number: nat)
    | LastSequence(sequence: nat)
    | CompactPointer(level: nat, key: Bytes)
    | DeletedFile(level: nat, number: nat)
    | NewFile(level: nat, file: FileRecord)

  predicate FieldFits(f: Field) {
    match f
    case Comparator(name) => |name| < TWO_32
    case LogNumber(n) => n < TWO_64
    case PrevLogNumber(n) => n < TWO_64
    case NextFileNumber(n) => n < TWO_64
    case LastSequence(n) => n < TWO_64
    case CompactPointer(level, key) => level < NUM_LEVELS && |key| < TWO_32
    case DeletedFile(level, n) => level < NUM_LEVELS && n < TWO_64
    case NewFile(level, file) =>
      && level < NUM_LEVELS && file.number < TWO_64 && file.fileSize < TWO_64
      && |file.smallest| < TWO_32 && |file.largest| < TWO_32
  }

  ghost predicate AllFit(fs: seq<Field>) {
    forall f :: f in fs ==> FieldFits(f)
  }

  function Tag(f: Field): nat {
    match f
    case Comparator(_) => COMPARATOR
    case LogNumber(_) => LOG_NUMBER
    case PrevLogNumber(_) => PREV_LOG_NUMBER
    case NextFileNumber(_) => NEXT_FILE_NUMBER
    case LastSequence(_) => LAST_SEQUENCE
    case CompactPointer(_, _) => COMPACT_POINTER
    case DeletedFile(_, _) => DELETED_FILE
    case NewFile(_, _) => NEW_FILE
  }

  function BodyBytes(f: Field): Bytes
    requires FieldFits(f)
  {
    match f
    case Comparator(name) => LengthPrefixed(name)
    case LogNumber(n) => Varint(n)
    case PrevLogNumber(n) => Varint(n)
    case NextFileNumber(n) => Varint(n)
    case LastSequence(n) => Varint(n)
    case CompactPointer(level, key) => Varint(level) + LengthPrefixed(key)
    case DeletedFile(level, n) => Varint(level) + Varint(n)
    case NewFile(level, file) =>
      Varint(level) + Varint(file.number) + Varint(file.fileSize) + LengthPrefixed(file.smallest) + LengthPrefixed(file.largest)
  }

  function FieldBytes(f: Field): Bytes
    requires FieldFits(f)
  {
    Varint(Tag(f)) + BodyBytes(f)
  }

  function GetLevel(input: Bytes): (r: Parsed<nat>)
    ensures r.Parsed? ==> |r.rest| < |input|
  {
    match GetVarint32(input)
    case Malformed => Malformed
    case Parsed(v, rest) => if v < NUM_LEVELS then Parsed(v, rest) else Malformed
  }

  datatype Error = BadTag | BadField | UnknownTag

  datatype FieldResult = FieldError(error: Error) | FieldParsed(field: Field, rest: Bytes)

  /** The field after its tag. */
  function ParseField(tag: nat, input: Bytes): (r: FieldResult)
    ensures r.FieldParsed? ==> |r.rest| < |input|
  {
    if tag == COMPARATOR then
      match GetLengthPrefixedSlice(input)
      case Malformed => FieldError(BadField)
      case Parsed(name, rest) => FieldParsed(Comparator(name), rest)
    else if tag == LOG_NUMBER || tag == PREV_LOG_NUMBER || tag == NEXT_FILE_NUMBER || tag == LAST_SEQUENCE then
      match GetVarint64(input)
      case Malformed => FieldError(BadField)
      case Parsed(n, rest) =>
        FieldParsed(if tag == LOG_NUMBER then LogNumber(n) else if tag == PREV_LOG_NUMBER then PrevLogNumber(n)
                    else if tag == NEXT_FILE_NUMBER then NextFileNumber(n) else LastSequence(n), rest)
    else if tag == COMPACT_POINTER then
      match GetLevel(input)
      case Malformed => FieldError(BadField)
      case Parsed(level, rest) =>
        match GetLengthPrefixedSlice(rest)
        case Malformed => FieldError(BadField)
        case Parsed(key, rest1) => FieldParsed(CompactPointer(level, key), rest1)
    else if tag == DELETED_FILE then
      match GetLevel(input)
      case Malformed => FieldError(BadField)
      case Parsed(level, rest) =>
        match GetVarint64(rest)
        case Malformed => FieldError(BadField)
        case Parsed(n, rest1) => FieldParsed(DeletedFile(level, n), rest1)
    else if tag == NEW_FILE then ParseNewFile(input)
    else FieldError(UnknownTag)
  }

  function ParseNewFile(input: Bytes): (r: FieldResult)
    ensures r.FieldParsed? ==> |r.rest| < |input|
  {
    match GetLevel(input)
    case Malformed => FieldError(BadField)
    case Parsed(level, rest) =>
      match GetVarint64(rest)
      case Malformed => FieldError(BadField)
      case Parsed(number, rest1) =>
        match GetVarint64(rest1)
        case Malformed => FieldError(BadField)
        case Parsed(fileSize, rest2) =>
          match GetLengthPrefixedSlice(rest2)
          case Malformed => FieldError(BadField)
          case Parsed(smallest, rest3) =>
            match GetLengthPrefixedSlice(rest3)
            case Malformed => FieldError(BadField)
            case Parsed(largest, rest4) => FieldParsed(NewFile(level, FileRecord(number, fileSize, smallest, largest)), rest4)
  }

  lemma LevelRoundTrip(level: nat, rest: Bytes)
    requires level < NUM_LEVELS
    ensures GetLevel(Varint(level) + rest) == Parsed(level, rest)
  {
    hide Varint, GetVarint32;
    Varint32RoundTrip(level, rest);
  }

  lemma NewFileParses(level: nat, file: FileRecord, rest: Bytes)
    requires FieldFits(NewFile(level, file))
    ensures ParseNewFile(Varint(level) + (Varint(file.number) + (Varint(file.fileSize)
                         + (LengthPrefixed(file.smallest) + (LengthPrefixed(file.largest) + rest)))))
         == FieldParsed(NewFile(level, file), rest)
  {
    hide Varint, GetVarint32, GetVarint64, GetLevel, LengthPrefixed, GetLengthPrefixedSlice;
    var rest4 := LengthPrefixed(file.largest) + rest;
    var rest3 := LengthPrefixed(file.smallest) + rest4;
    var rest2 := Varint(file.fileSize) + rest3;
    var rest1 := Varint(file.number) + rest2;
    LevelRoundTrip(level, rest1);
    Varint64RoundTrip(file.number, rest2);
    Varint64RoundTrip(file.fileSize, rest3);
    LengthPrefixedRoundTrip(file.smallest, rest4);
    LengthPrefixedRoundTrip(file.largest, rest);
  }

  /** Every field is parsed back, and nothing behind it is touched. */
  lemma FieldParses(f: Field, rest: Bytes)
    requires FieldFits(f)
    ensures ParseField(Tag(f), BodyBytes(f) + rest) == FieldParsed(f, rest)
  {
    hide Varint, GetVarint32, GetVarint64, GetLevel, LengthPrefixed, GetLengthPrefixedSlice, ParseNewFile;
    match f
    case Comparator(name) => LengthPrefixedRoundTrip(name, rest);
    case LogNumber(n) => Varint64RoundTrip(n, rest);
    case PrevLogNumber(n) => Varint64RoundTrip(n, rest);
    case NextFileNumber(n) => Varint64RoundTrip(n, rest);
    case LastSequence(n) => Varint64RoundTrip(n, rest);
    case CompactPointer(level, key) =>
      Associates(Varint(level), LengthPrefixed(key), rest);
      LevelRoundTrip(level, LengthPrefixed(key) + rest);
      LengthPrefixedRoundTrip(key, rest);
    case DeletedFile(level, n) =>
      Associates(Varint(level), Varint(n), rest);
      LevelRoundTrip(level, Varint(n) + rest);
      Varint64RoundTrip(n, rest);
    case NewFile(level, file) =>
      NewFileParses(level, file, rest);
      NewFileInParts(Varint(level), Varint(file.number), Varint(file.fileSize), LengthPrefixed(file.smallest),
                     LengthPrefixed(file.largest), rest);
  }

  lemma NewFileInParts(a: Bytes, b: Bytes, c: Bytes, d: Bytes, e: Bytes, rest: Bytes)
    ensures a + b + c + d + e + rest == a + (b + (c + (d + (e + rest))))
  {
    Associates(a + b + c + d, e, rest);
    Associates(a + b + c, d, e + rest);
    Associates(a + b, c, d + (e + rest));
    Associates(a, b, c + (d + (e + rest)));
  }

  /** The fields in the input up to its end or the first error. A tag cut off by the end is an error too. */
  function ParseFields(input: Bytes): (r: (seq<Field>, Option<Error>))
    decreases |input|
  {
    match GetVarint32(input)
    case Malformed => ([], if input == [] then None else Some(BadTag))
    case Parsed(tag, rest) =>
      match ParseField(tag, rest)
      case FieldError(error) => ([], Some(error))
      case FieldParsed(field, rest1) =>
        var more := ParseFields(rest1);
        ([field] + more.0, more.1)
  }

  function FieldsBytes(fs: seq<Field>): Bytes
    requires AllFit(fs)
  {
    if fs == [] then [] else FieldBytes(fs[0]) + FieldsBytes(fs[1..])
  }

  lemma {:induction false} FieldsParse(fs: seq<Field>)
    requires AllFit(fs)
    ensures ParseFields(FieldsBytes(fs)) == (fs, None)
  {
    hide FieldBytes, BodyBytes, ParseField, GetVarint32, Varint, FieldFits;
    if fs == [] {
      NothingParses();
    } else {
      var f, more := fs[0], FieldsBytes(fs[1..]);
      FieldParses(f, more);
      Varint32RoundTrip(Tag(f), BodyBytes(f) + more);
      FieldWithTag(f, more);
      FieldsParse(fs[1..]);
      assert fs == [f] + fs[1..];
    }
  }

  lemma FieldWithTag(f: Field, rest: Bytes)
    requires FieldFits(f)
    ensures FieldBytes(f) + rest == Varint(Tag(f)) + (BodyBytes(f) + rest)
  {
    hide BodyBytes, Varint;
    Associates(Varint(Tag(f)), BodyBytes(f), rest);
  }

  lemma NothingParses()
    ensures GetVarint32([]) == Malformed
  {
  }

  lemma {:induction false} FieldsJoin(a: seq<Field>, b: seq<Field>)
    requires AllFit(a)
    requires AllFit(b)
    ensures FieldsBytes(a + b) == FieldsBytes(a) + FieldsBytes(b)
  {
    hide FieldBytes, FieldFits;
    if a == [] {
      assert a + b == b;
    } else {
      FieldsJoin(a[1..], b);
      assert (a + b)[1..] == a[1..] + b && (a + b)[0] == a[0];
    }
  }

  /** What an edit holds. The deleted files are a set, kept in order. */
  datatype EditData = EditData(
    comparator: Option<Bytes>,
    logNumber: Option<nat>,
    prevLogNumber: Option<nat>,
    nextFileNumber: Option<nat>,
    lastSequence: Option<nat>,
    compactPointers: seq<(nat, Bytes)>,
    deletedFiles: seq<(nat, nat)>,
    newFiles: seq<(nat, FileRecord)>)

  predicate PairBefore(a: (nat, nat), b: (nat, nat)) {
    a.0 < b.0 || (a.0 == b.0 && a.1 < b.1)
  }

  ghost predicate PairsInOrder(s: seq<(nat, nat)>) {
    forall i, j :: 0 <= i < j < |s| ==> PairBefore(s[i], s[j])
  }

  /** `set::insert`. */
  function InsertPair(s: seq<(nat, nat)>, x: (nat, nat)): (r: seq<(nat, nat)>)
    ensures forall y :: y in r <==> y in s || y == x
  {
    if s == [] then [x]
    else if x == s[0] then s
    else if PairBefore(x, s[0]) then [x] + s
    else
      var r := [s[0]] + InsertPair(s[1..], x);
      assert s == [s[0]] + s[1..];
      r
  }

  lemma {:induction false} InsertKeepsOrder(s: seq<(nat, nat)>, x: (nat, nat))
    requires PairsInOrder(s)
    ensures PairsInOrder(InsertPair(s, x))
  {
    if s != [] && x != s[0] && !PairBefore(x, s[0]) {
      InsertKeepsOrder(s[1..], x);
      var rest := InsertPair(s[1..], x);
      assert forall y :: y in rest ==> PairBefore(s[0], y) by {
        forall y | y in rest ensures PairBefore(s[0], y) {
          if y != x {
            var j :| 0 <= j < |s[1..]| && s[1..][j] == y;
            assert s[j + 1] == y;
          }
        }
      }
    }
  }

  lemma {:induction false} InsertAtEnd(s: seq<(nat, nat)>, x: (nat, nat))
    requires forall y :: y in s ==> PairBefore(y, x)
    ensures InsertPair(s, x) == s + [x]
  {
    if s != [] {
      assert s[0] in s;
      InsertAtEnd(s[1..], x);
      assert s == [s[0]] + s[1..];
    }
  }

  /** Clearing forgets everything but the compaction pointers. */
  function Cleared(d: EditData): EditData {
    EditData(None, None, None, None, None, d.compactPointers, [], [])
  }

  function Applied(d: EditData, f: Field): EditData {
    match f
    case Comparator(name) => d.(comparator := Some(name))
    case LogNumber(n) => d.(logNumber := Some(n))
    case PrevLogNumber(n) => d.(prevLogNumber := Some(n))
    case NextFileNumber(n) => d.(nextFileNumber := Some(n))
    case LastSequence(n) => d.(lastSequence := Some(n))
    case CompactPointer(level, key) => d.(compactPointers := d.compactPointers + [(level, key)])
    case DeletedFile(level, n) => d.(deletedFiles := InsertPair(d.deletedFiles, (level, n)))
    case NewFile(level, file) => d.(newFiles := d.newFiles + [(level, file)])
  }

  function ApplyAll(d: EditData, fs: seq<Field>): EditData
    decreases |fs|
  {
    if fs == [] then d else ApplyAll(Applied(d, fs[0]), fs[1..])
  }

  lemma {:induction false} ApplyJoins(d: EditData, a: seq<Field>, b: seq<Field>)
    ensures ApplyAll(d, a + b) == ApplyAll(ApplyAll(d, a), b)
    decreases |a|
  {
    hide Applied;
    if a == [] {
      assert a + b == b;
    } else {
      ApplyJoins(Applied(d, a[0]), a[1..], b);
      assert (a + b)[1..] == a[1..] + b && (a + b)[0] == a[0];
    }
  }

  function NumberFields(d: EditData): seq<Field> {
    (if d.comparator.Some? then [Comparator(d.comparator.value)] else [])
    + (if d.logNumber.Some? then [LogNumber(d.logNumber.value)] else [])
    + (if d.prevLogNumber.Some? then [PrevLogNumber(d.prevLogNumber.value)] else [])
    + (if d.nextFileNumber.Some? then [NextFileNumber(d.nextFileNumber.value)] else [])
    + (if d.lastSequence.Some? then [LastSequence(d.lastSequence.value)] else [])
  }

  function PointerFields(ps: seq<(nat, Bytes)>): (r: seq<Field>)
    ensures |r| == |ps| && forall i :: 0 <= i < |ps| ==> r[i] == CompactPointer(ps[i].0, ps[i].1)
  {
    if ps == [] then [] else PointerFields(ps[..|ps| - 1]) + [CompactPointer(ps[|ps| - 1].0, ps[|ps| - 1].1)]
  }

  function DeletedFields(ps: seq<(nat, nat)>): (r: seq<Field>)
    ensures |r| == |ps| && forall i :: 0 <= i < |ps| ==> r[i] == DeletedFile(ps[i].0, ps[i].1)
  {
    if ps == [] then [] else DeletedFields(ps[..|ps| - 1]) + [DeletedFile(ps[|ps| - 1].0, ps[|ps| - 1].1)]
  }

  function NewFields(ps: seq<(nat, FileRecord)>): (r: seq<Field>)
    ensures |r| == |ps| && forall i :: 0 <= i < |ps| ==> r[i] == NewFile(ps[i].0, ps[i].1)
  {
    if ps == [] then [] else NewFields(ps[..|ps| - 1]) + [NewFile(ps[|ps| - 1].0, ps[|ps| - 1].1)]
  }

  /** The fields of an edit in the order they are written. */
  function Fields(d: EditData): seq<Field> {
    NumberFields(d) + PointerFields(d.compactPointers) + DeletedFields(d.deletedFiles) + NewFields(d.newFiles)
  }

  lemma ApplyOne(d: EditData, f: Field)
    ensures ApplyAll(d, [f]) == Applied(d, f)
  {
    assert [f][1..] == [];
  }

  lemma NumbersApply(d: EditData, d0: EditData)
    ensures ApplyAll(Cleared(d0), NumberFields(d))
         == d.(compactPointers := d0.compactPointers, deletedFiles := [], newFiles := [])
  {
    var s0 := Cleared(d0);
    var a := if d.comparator.Some? then [Comparator(d.comparator.value)] else [];
    var b := if d.logNumber.Some? then [LogNumber(d.logNumber.value)] else [];
    var c := if d.prevLogNumber.Some? then [PrevLogNumber(d.prevLogNumber.value)] else [];
    var e := if d.nextFileNumber.Some? then [NextFileNumber(d.nextFileNumber.value)] else [];
    var f := if d.lastSequence.Some? then [LastSequence(d.lastSequence.value)] else [];
    ApplyJoins(s0, a + b + c + e, f);
    ApplyJoins(s0, a + b + c, e);
    ApplyJoins(s0, a + b, c);
    ApplyJoins(s0, a, b);
  }

  lemma {:induction false} PointersApply(d: EditData, ps: seq<(nat, Bytes)>)
    ensures ApplyAll(d, PointerFields(ps)) == d.(compactPointers := d.compactPointers + ps)
  {
    if ps == [] {
      assert d.compactPointers + ps == d.compactPointers;
    } else {
      var shorter, last := ps[..|ps| - 1], ps[|ps| - 1];
      PointersApply(d, shorter);
      ApplyJoins(d, PointerFields(shorter), [CompactPointer(last.0, last.1)]);
      ApplyOne(ApplyAll(d, PointerFields(shorter)), CompactPointer(last.0, last.1));
      assert d.compactPointers + shorter + [last] == d.compactPointers + ps;
    }
  }

  lemma {:induction false} DeletedApply(d: EditData, ps: seq<(nat, nat)>)
    requires d.deletedFiles == [] && PairsInOrder(ps)
    ensures ApplyAll(d, DeletedFields(ps)) == d.(deletedFiles := ps)
    decreases |ps|
  {
    if ps != [] {
      var shorter, last := ps[..|ps| - 1], ps[|ps| - 1];
      DeletedApply(d, shorter);
      ApplyJoins(d, DeletedFields(shorter), [DeletedFile(last.0, last.1)]);
      ApplyOne(ApplyAll(d, DeletedFields(shorter)), DeletedFile(last.0, last.1));
      forall y | y in shorter ensures PairBefore(y, last) {
        var i :| 0 <= i < |shorter| && shorter[i] == y;
        assert ps[i] == y;
      }
      InsertAtEnd(shorter, last);
    }
  }

  lemma {:induction false} NewFilesApply(d: EditData, ps: seq<(nat, FileRecord)>)
    ensures ApplyAll(d, NewFields(ps)) == d.(newFiles := d.newFiles + ps)
  {
    if ps == [] {
      assert d.newFiles + ps == d.newFiles;
    } else {
      var shorter, last := ps[..|ps| - 1], ps[|ps| - 1];
      NewFilesApply(d, shorter);
      ApplyJoins(d, NewFields(shorter), [NewFile(last.0, last.1)]);
      ApplyOne(ApplyAll(d, NewFields(shorter)), NewFile(last.0, last.1));
      assert d.newFiles + shorter + [last] == d.newFiles + ps;
    }
  }

  /** Decoding an encoded edit restores every field, set and list of it, into any object, except that the
      compaction pointers are added to those the object already had. */
  lemma EditRoundTrip(d: EditData, d0: EditData)
    requires PairsInOrder(d.deletedFiles)
    requires AllFit(Fields(d))
    ensures var (fs, error) := ParseFields(FieldsBytes(Fields(d)));
            error.None? && ApplyAll(Cleared(d0), fs) == d.(compactPointers := d0.compactPointers + d.compactPointers)
  {
    hide ParseFields, FieldsBytes, ApplyAll, Applied, NumberFields, FieldFits;
    FieldsParse(Fields(d));
    var a, b, c, e := NumberFields(d), PointerFields(d.compactPointers), DeletedFields(d.deletedFiles), NewFields(d.newFiles);
    var s0 := Cleared(d0);
    NumbersApply(d, d0);
    ApplyJoins(s0, a + b + c, e);
    ApplyJoins(s0, a + b, c);
    ApplyJoins(s0, a, b);
    var s1 := d.(compactPointers := d0.compactPointers, deletedFiles := [], newFiles := []);
    PointersApply(s1, d.compactPointers);
    var s2 := s1.(compactPointers := d0.compactPointers + d.compactPointers);
    DeletedApply(s2, d.deletedFiles);
    var s3 := s2.(deletedFiles := d.deletedFiles);
    NewFilesApply(s3, d.newFiles);
    assert [] + d.newFiles == d.newFiles;
  }

  /** So a decoded edit is the encoded one exactly when the object had no compaction pointers. */
  lemma FreshObjectNeeded(d: EditData, d0: EditData)
    requires PairsInOrder(d.deletedFiles)
    requires AllFit(Fields(d))
    ensures ApplyAll(Cleared(d0), ParseFields(FieldsBytes(Fields(d))).0) == d <==> d0.compactPointers == []
  {
    hide ParseFields, FieldsBytes, ApplyAll, FieldFits, Fields, PairsInOrder, Cleared;
    EditRoundTrip(d, d0);
    assert [] + d.compactPointers == d.compactPointers;
    assert |d0.compactPointers + d.compactPointers| == |d0.compactPointers| + |d.compactPointers|;
  }

  method EncodePointers(dst: Bytes, ps: seq<(nat, Bytes)>) returns (r: Bytes)
    requires AllFit(PointerFields(ps))
    ensures r == dst + FieldsBytes(PointerFields(ps))
  {
    hide FieldBytes, FieldFits, FieldsBytes;
    r := dst;
    NoFields(dst);
    for i := 0 to |ps|
      invariant AllFit(PointerFields(ps[..i])) && r == dst + FieldsBytes(PointerFields(ps[..i]))
    {
      assert ps[..i + 1][..i] == ps[..i] && PointerFields(ps)[i] in PointerFields(ps);
      OneMoreField(PointerFields(ps[..i]), CompactPointer(ps[i].0, ps[i].1), dst, r);
      r := r + FieldBytes(CompactPointer(ps[i].0, ps[i].1));
    }
    assert ps[..|ps|] == ps;
  }

  method EncodeDeleted(dst: Bytes, ps: seq<(nat, nat)>) returns (r: Bytes)
    requires AllFit(DeletedFields(ps))
    ensures r == dst + FieldsBytes(DeletedFields(ps))
  {
    hide FieldBytes, FieldFits, FieldsBytes;
    r := dst;
    NoFields(dst);
    for i := 0 to |ps|
      invariant AllFit(DeletedFields(ps[..i])) && r == dst + FieldsBytes(DeletedFields(ps[..i]))
    {
      assert ps[..i + 1][..i] == ps[..i] && DeletedFields(ps)[i] in DeletedFields(ps);
      OneMoreField(DeletedFields(ps[..i]), DeletedFile(ps[i].0, ps[i].1), dst, r);
      r := r + FieldBytes(DeletedFile(ps[i].0, ps[i].1));
    }
    assert ps[..|ps|] == ps;
  }

  method EncodeNew(dst: Bytes, ps: seq<(nat, FileRecord)>) returns (r: Bytes)
    requires AllFit(NewFields(ps))
    ensures r == dst + FieldsBytes(NewFields(ps))
  {
    hide FieldBytes, FieldFits, FieldsBytes;
    r := dst;
    NoFields(dst);
    for i := 0 to |ps|
      invariant AllFit(NewFields(ps[..i])) && r == dst + FieldsBytes(NewFields(ps[..i]))
    {
      assert ps[..i + 1][..i] == ps[..i] && NewFields(ps)[i] in NewFields(ps);
      OneMoreField(NewFields(ps[..i]), NewFile(ps[i].0, ps[i].1), dst, r);
      r := r + FieldBytes(NewFile(ps[i].0, ps[i].1));
    }
    assert ps[..|ps|] == ps;
  }

  class VersionEdit {
    var comparator: Option<Bytes>
    var logNumber: Option<nat>
    var prevLogNumber: Option<nat>
    var nextFileNumber: Option<nat>
    var lastSequence: Option<nat>
    var compactPointers: seq<(nat, Bytes)>
    var deletedFiles: seq<(nat, nat)>
    var newFiles: seq<(nat, FileRecord)>

    function Data(): EditData
      reads this
    {
      EditData(comparator, logNumber, prevLogNumber, nextFileNumber, lastSequence, compactPointers, deletedFiles, newFiles)
    }

    constructor ()
      ensures Data() == EditData(None, None, None, None, None, [], [], [])
    {
      comparator, logNumber, prevLogNumber, nextFileNumber, lastSequence := None, None, None, None, None;
      compactPointers, deletedFiles, newFiles := [], [], [];
    }

    method Clear()
      modifies this
      ensures Data() == Cleared(old(Data()))
    {
      comparator, logNumber, prevLogNumber, nextFileNumber, lastSequence := None, None, None, None, None;
      deletedFiles, newFiles := [], [];
    }

    /** Takes one decoded field. */
    method Take(f: Field)
      modifies this
      ensures Data() == Applied(old(Data()), f)
    {
      match f
      case Comparator(name) => comparator := Some(name);
      case LogNumber(n) => logNumber := Some(n);
      case PrevLogNumber(n) => prevLogNumber := Some(n);
      case NextFileNumber(n) => nextFileNumber := Some(n);
      case LastSequence(n) => lastSequence := Some(n);
      case CompactPointer(level, key) => compactPointers := compactPointers + [(level, key)];
      case DeletedFile(level, n) => deletedFiles := InsertPair(deletedFiles, (level, n));
      case NewFile(level, file) => newFiles := newFiles + [(level, file)];
    }

    method EncodeTo(dst: Bytes) returns (r: Bytes)
      requires AllFit(Fields(Data()))
      ensures r == dst + FieldsBytes(Fields(Data()))
    {
      hide FieldsBytes, FieldFits, NumberFields, PointerFields, DeletedFields, NewFields;
      PartsFit(Data());
      r := EncodeNumbers(dst);
      r := EncodePointers(r, compactPointers);
      r := EncodeDeleted(r, deletedFiles);
      r := EncodeNew(r, newFiles);
      JoinParts(dst, NumberFields(Data()), PointerFields(compactPointers), DeletedFields(deletedFiles), NewFields(newFiles));
    }

    method EncodeNumbers(dst: Bytes) returns (r: Bytes)
      requires AllFit(NumberFields(Data()))
      ensures r == dst + FieldsBytes(NumberFields(Data()))
    {
      hide FieldBytes, BodyBytes, FieldFits, FieldsBytes;
      r := dst;
      ghost var done: seq<Field> := [];
      NoFields(dst);
      NumbersFit(Data());
      ghost var f1 := if comparator.Some? then [Comparator(comparator.value)] else [];
      ghost var f2 := if logNumber.Some? then [LogNumber(logNumber.value)] else [];
      ghost var f3 := if prevLogNumber.Some? then [PrevLogNumber(prevLogNumber.value)] else [];
      ghost var f4 := if nextFileNumber.Some? then [NextFileNumber(nextFileNumber.value)] else [];
      ghost var f5 := if lastSequence.Some? then [LastSequence(lastSequence.value)] else [];
      assert NumberFields(Data()) == f1 + f2 + f3 + f4 + f5;
      if comparator.Some? {
        OneMoreField(done, Comparator(comparator.value), dst, r);
        done := done + [Comparator(comparator.value)];
        r := r + FieldBytes(Comparator(comparator.value));
      }
      assert done == f1;
      if logNumber.Some? {
        OneMoreField(done, LogNumber(logNumber.value), dst, r);
        done := done + [LogNumber(logNumber.value)];
        r := r + FieldBytes(LogNumber(logNumber.value));
      }
      assert done == f1 + f2;
      if prevLogNumber.Some? {
        OneMoreField(done, PrevLogNumber(prevLogNumber.value), dst, r);
        done := done + [PrevLogNumber(prevLogNumber.value)];
        r := r + FieldBytes(PrevLogNumber(prevLogNumber.value));
      }
      assert done == f1 + f2 + f3;
      if nextFileNumber.Some? {
        OneMoreField(done, NextFileNumber(nextFileNumber.value), dst, r);
        done := done + [NextFileNumber(nextFileNumber.value)];
        r := r + FieldBytes(NextFileNumber(nextFileNumber.value));
      }
      assert done == f1 + f2 + f3 + f4;
      if lastSequence.Some? {
        OneMoreField(done, LastSequence(lastSequence.value), dst, r);
        done := done + [LastSequence(lastSequence.value)];
        r := r + FieldBytes(LastSequence(lastSequence.value));
      }
      assert done == f1 + f2 + f3 + f4 + f5;
    }

    /** Decodes any input: all fields up to the first error are taken. */
    method DecodeFrom(src: Bytes) returns (error: Option<Error>)
      modifies this
      ensures error == ParseFields(src).1
      ensures Data() == ApplyAll(Cleared(old(Data())), ParseFields(src).0)
    {
      hide GetVarint32, ParseField, Applied;
      Clear();
      var input := src;
      while true
        invariant ParseFields(input).1 == ParseFields(src).1
        invariant ApplyAll(Data(), ParseFields(input).0) == ApplyAll(Cleared(old(Data())), ParseFields(src).0)
        decreases |input|
      {
        var t := GetVarint32(input);
        if t.Malformed? {
          return if input != [] then Some(BadTag) else None;
        }
        var f := ParseField(t.value, t.rest);
        if f.FieldError? {
          return Some(f.error);
        }
        OneField(Data(), f.field, ParseFields(f.rest).0);
        Take(f.field);
        input := f.rest;
      }
    }
  }

  lemma NoFields(dst: Bytes)
    ensures dst == dst + FieldsBytes([])
  {
  }

  lemma OneMoreField(done: seq<Field>, f: Field, dst: Bytes, r: Bytes)
    requires AllFit(done) && FieldFits(f) && r == dst + FieldsBytes(done)
    ensures AllFit(done + [f]) && r + FieldBytes(f) == dst + FieldsBytes(done + [f])
  {
    hide FieldBytes, FieldFits;
    FieldsJoin(done, [f]);
    assert [f][1..] == [] && FieldsBytes([]) == [];
    assert FieldsBytes([f]) == FieldBytes(f);
    Associates(dst, FieldsBytes(done), FieldBytes(f));
  }

  lemma PartsFit(d: EditData)
    requires AllFit(Fields(d))
    ensures AllFit(NumberFields(d)) && AllFit(PointerFields(d.compactPointers))
    ensures AllFit(DeletedFields(d.deletedFiles)) && AllFit(NewFields(d.newFiles))
  {
    hide FieldFits, NumberFields;
    SubsetFits(NumberFields(d), PointerFields(d.compactPointers), DeletedFields(d.deletedFiles), NewFields(d.newFiles));
  }

  lemma SubsetFits(a: seq<Field>, b: seq<Field>, c: seq<Field>, e: seq<Field>)
    requires AllFit(a + b + c + e)
    ensures AllFit(a) && AllFit(b) && AllFit(c) && AllFit(e)
  {
    hide FieldFits;
    var all := a + b + c + e;
    assert forall f :: f in a || f in b || f in c || f in e ==> f in all;
  }

  lemma NumbersFit(d: EditData)
    requires AllFit(NumberFields(d))
    ensures d.comparator.Some? ==> FieldFits(Comparator(d.comparator.value))
    ensures d.logNumber.Some? ==> FieldFits(LogNumber(d.logNumber.value))
    ensures d.prevLogNumber.Some? ==> FieldFits(PrevLogNumber(d.prevLogNumber.value))
    ensures d.nextFileNumber.Some? ==> FieldFits(NextFileNumber(d.nextFileNumber.value))
    ensures d.lastSequence.Some? ==> FieldFits(LastSequence(d.lastSequence.value))
  {
    hide FieldFits;
    var fs := NumberFields(d);
    assert d.comparator.Some? ==> Comparator(d.comparator.value) in fs;
    assert d.logNumber.Some? ==> LogNumber(d.logNumber.value) in fs;
    assert d.prevLogNumber.Some? ==> PrevLogNumber(d.prevLogNumber.value) in fs;
    assert d.nextFileNumber.Some? ==> NextFileNumber(d.nextFileNumber.value) in fs;
    assert d.lastSequence.Some? ==> LastSequence(d.lastSequence.value) in fs;
  }

  lemma JoinParts(dst: Bytes, a: seq<Field>, b: seq<Field>, c: seq<Field>, e: seq<Field>)
    requires AllFit(a) && AllFit(b) && AllFit(c) && AllFit(e)
    ensures AllFit(a + b + c + e)
    ensures dst + FieldsBytes(a) + FieldsBytes(b) + FieldsBytes(c) + FieldsBytes(e) == dst + FieldsBytes(a + b + c + e)
  {
    hide FieldFits, FieldsBytes;
    FieldsJoin(a, b);
    FieldsJoin(a + b, c);
    FieldsJoin(a + b + c, e);
    Associates(dst, FieldsBytes(a), FieldsBytes(b));
    Associates(dst, FieldsBytes(a + b), FieldsBytes(c));
    Associates(dst, FieldsBytes(a + b + c), FieldsBytes(e));
  }

  lemma OneField(d: EditData, f: Field, fs: seq<Field>)
    ensures ApplyAll(d, [f] + fs) == ApplyAll(Applied(d, f), fs)
  {
    hide Applied;
    assert ([f] + fs)[1..] == fs;
  }
}
