/** nanopb's wire format in numbers (pb.h, pb_encode.c, pb_decode.c). Encoder and decoder are proved against each
    other in `NanopbRoundTrip`; here their common format is stated with nothing but literal numbers. */
module NanopbFormat {
  import opened Keys
  import opened Coding
  import opened Nanopb
  import opened NanopbDecode
  import opened NanopbRoundTrip

  /** Wire types: 0 for bools and integers, 1 for eight bytes, 2 for what has a length, 5 for four bytes. */
  lemma WireTypesInNumbers(t: LType)
    ensures t.BoolT? || t.VarintT? || t.UvarintT? || t.SvarintT? ==> WireType(t) == 0
    ensures t.Fixed64T? ==> WireType(t) == 1
    ensures t.BytesT? || t.StringT? || t.FixedBytesT? || t.MessageT? ==> WireType(t) == 2
    ensures t.Fixed32T? ==> WireType(t) == 5
  {
  }

  /** What is encoded of a present field: its tag is eight times its number plus the wire type, which is 2 for a
      packed array; items that cannot be packed have a tag each. */
  lemma FieldInBytes(f: Field, s: Slot)
    requires TypedSlot(f, s) && Present(f, s)
    ensures !f.htype.Repeated? ==>
              && s.One? && TypedValue(f.ltype, s.value)
              && EncodeSlot(f, s) == Varint(8 * f.tag + WireType(f.ltype)) + EncodeValue(f.ltype, s.value)
    ensures f.htype.Repeated? ==> s.Many? && s.items != [] && forall k :: 0 <= k < |s.items| ==> TypedValue(f.ltype, s.items[k])
    ensures f.htype.Repeated? && Packable(f.ltype) ==>
              EncodeSlot(f, s) == Varint(8 * f.tag + 2) + Varint(|EncodeItems(f.ltype, s.items)|) + EncodeItems(f.ltype, s.items)
    ensures f.htype.Repeated? && !Packable(f.ltype) && |s.items| == 1 ==>
              EncodeSlot(f, s) == Varint(8 * f.tag + 2) + EncodeValue(f.ltype, s.items[0])
  {
    hide Varint, EncodeValue, TypedValue, IsZero;
    if f.htype.Repeated? && !Packable(f.ltype) && |s.items| == 1 {
      assert s.items[1..] == [];
      var a, b := TagBytes(f.tag, WireType(f.ltype)), EncodeValue(f.ltype, s.items[0]);
      assert a + b + EncodeEach(f.tag, f.ltype, []) == a + b;
    }
  }

  /** A field of eight bytes with the number 3 starts with the byte 0x19. */
  lemma DoubleOfThree(v: nat)
    requires v < TWO_64
    ensures EncodeSlot(Field(3, Fixed64T, Required), One(true, Int(v))) == [0x19] + Fixed(v, 8)
  {
    hide Fixed;
    VarintByte(0x19);
  }

  /** Numbers on the wire, whatever their width in memory: negative ones from 2^64 down, or by zigzag. */
  lemma NumbersInBytes(i: int, size: nat)
    requires IntSize(size)
    ensures TypedValue(VarintT(size), Int(i)) ==>
              EncodeValue(VarintT(size), Int(i)) == Varint(if i < 0 then i + 0x1_0000_0000_0000_0000 else i)
    ensures TypedValue(SvarintT(size), Int(i)) ==> EncodeValue(SvarintT(size), Int(i)) == Varint(ZigZag(i))
    ensures TypedValue(UvarintT(size), Int(i)) ==> EncodeValue(UvarintT(size), Int(i)) == Varint(i)
    ensures 0 <= i <= 1 ==> EncodeValue(BoolT, Int(i)) == [i]
    ensures 0 <= i < 0x1_0000_0000 ==> EncodeValue(Fixed32T, Int(i)) == Fixed(i, 4)
    ensures 0 <= i < 0x1_0000_0000_0000_0000 ==> EncodeValue(Fixed64T, Int(i)) == Fixed(i, 8)
  {
    hide Varint, Fixed;
    if 0 <= i <= 1 {
      VarintByte(i);
    }
  }

  /** Byte strings and messages follow their length. */
  lemma LengthsInBytes(t: LType, v: Value)
    requires TypedValue(t, v)
    ensures v.Blob? ==> EncodeValue(t, v) == Varint(|v.b|) + v.b
    ensures v.Msg? ==> var body := EncodeFields(t.fields, v.slots); EncodeValue(t, v) == Varint(|body|) + body
  {
    hide Varint, Fixed, EncodeFields, Typed;
  }

  /** The last field of the descriptor is written last. */
  lemma LastFieldLast(fields: seq<Field>, slots: seq<Slot>, f: Field, s: Slot)
    requires Typed(fields + [f], slots + [s])
    ensures Typed(fields, slots) && TypedSlot(f, s)
    ensures EncodeFields(fields + [f], slots + [s]) == EncodeFields(fields, slots) + EncodeSlot(f, s)
  {
    hide EncodeSlot, TypedSlot;
    FewerTyped(fields, slots, f, s);
    FromInOrder(fields, slots, f, s, 0);
  }

  lemma FewerTyped(fields: seq<Field>, slots: seq<Slot>, f: Field, s: Slot)
    requires Typed(fields + [f], slots + [s])
    ensures Typed(fields, slots) && TypedSlot(f, s)
  {
    hide TypedSlot;
    var fields1, slots1 := fields + [f], slots + [s];
    assert fields1[|fields|] == f && slots1[|slots|] == s;
    assert forall i :: 0 <= i < |fields| ==> fields1[i] == fields[i] && slots1[i] == slots[i];
  }

  lemma {:induction false} FromInOrder(fields: seq<Field>, slots: seq<Slot>, f: Field, s: Slot, k: nat)
    requires Typed(fields + [f], slots + [s]) && Typed(fields, slots) && TypedSlot(f, s) && k <= |fields|
    ensures EncodeFrom(fields + [f], slots + [s], k) == EncodeFrom(fields, slots, k) + EncodeSlot(f, s)
    decreases |fields| - k
  {
    hide EncodeSlot, TypedSlot, Typed;
    var fields1, slots1 := fields + [f], slots + [s];
    FromStep(fields1, slots1, k);
    if k == |fields| {
      assert EncodeFrom(fields1, slots1, k + 1) == [];
    } else {
      FromInOrder(fields, slots, f, s, k + 1);
      FromStep(fields, slots, k);
      assert fields1[k] == fields[k] && slots1[k] == slots[k];
    }
  }

  lemma FromStep(fields: seq<Field>, slots: seq<Slot>, k: nat)
    requires Typed(fields, slots) && k < |fields|
    ensures |slots| == |fields| && TypedSlot(fields[k], slots[k])
    ensures EncodeFrom(fields, slots, k) == EncodeSlot(fields[k], slots[k]) + EncodeFrom(fields, slots, k + 1)
  {
    hide EncodeSlot, TypedSlot;
  }

  // ----- what is left out -----

  ghost predicate AllZero(b: Bytes) {
    forall i :: 0 <= i < |b| ==> b[i] == 0
  }

  /** Which fields are written: required ones always, optional ones and those of a oneof when they are set, repeated
      ones when they have items, and others when a byte of their encoding is not zero. */
  lemma PresentInBytes(f: Field, s: Slot)
    requires TypedSlot(f, s)
    ensures f.htype.Required? ==> EncodeSlot(f, s) != []
    ensures f.htype.Optional? || f.htype.Oneof? ==> (EncodeSlot(f, s) != [] <==> s.has)
    ensures f.htype.Repeated? ==> (EncodeSlot(f, s) != [] <==> s.items != [])
    ensures f.htype.Singular? ==> (EncodeSlot(f, s) != [] <==> !AllZero(EncodeValue(f.ltype, s.value)))
  {
    hide EncodeSlot, AllZero, EncodeValue, IsZero, TypedValue;
    PresentTakesBytes(f, s);
    if f.htype.Singular? {
      ZeroInBytes(f.ltype, s.value);
    }
  }

  lemma PresentTakesBytes(f: Field, s: Slot)
    requires TypedSlot(f, s)
    ensures EncodeSlot(f, s) != [] <==> Present(f, s)
  {
    hide EncodeValue, TypedValue, Varint, IsZero, EncodeItems;
    SomeByte(f.tag * 8 + WireType(f.ltype));
    SomeByte(f.tag * 8 + WT_STRING);
  }

  lemma SomeByte(n: nat)
    ensures Varint(n) != []
  {
  }

  lemma {:induction false} ZeroInBytes(t: LType, v: Value)
    requires TypedValue(t, v)
    ensures IsZero(t, v) <==> AllZero(EncodeValue(t, v))
    decreases t
  {
    hide Varint, Fixed;
    match t
    case MessageT(fields) =>
      NothingInBytes(fields, v.slots);
      BlobZero(EncodeFields(fields, v.slots));
    case BoolT => VarintZero(v.i);
    case VarintT(_) => VarintZero(Unsigned64(v.i));
    case UvarintT(_) => VarintZero(v.i);
    case SvarintT(_) => VarintZero(ZigZag(v.i));
    case Fixed32T => FixedZero(v.i, 4);
    case Fixed64T => FixedZero(v.i, 8);
    case BytesT(_) => BlobZero(v.b);
    case StringT(_) => BlobZero(v.b);
    case FixedBytesT(_) => BlobZero(v.b);
  }

  lemma BlobZero(b: Bytes)
    ensures AllZero(Varint(|b|) + b) <==> b == []
  {
    hide Varint;
    VarintZero(|b|);
    assert (Varint(|b|) + b)[0] == Varint(|b|)[0];
  }

  lemma {:induction false} NothingInBytes(fields: seq<Field>, slots: seq<Slot>)
    requires Typed(fields, slots)
    ensures IsZero(MessageT(fields), Msg(slots)) <==> EncodeFields(fields, slots) == []
  {
    hide EncodeSlot, TypedSlot, IsZeroSlot, Present;
    forall i | 0 <= i < |fields| ensures IsZeroSlot(fields[i], slots[i]) <==> EncodeSlot(fields[i], slots[i]) == [] {
      ZeroIsAbsent(fields[i], slots[i]);
      PresentTakesBytes(fields[i], slots[i]);
    }
    NothingFrom(fields, slots, 0);
  }

  lemma ZeroIsAbsent(f: Field, s: Slot)
    requires TypedSlot(f, s)
    ensures IsZeroSlot(f, s) <==> !Present(f, s)
  {
    hide IsZero, TypedValue;
  }

  lemma {:induction false} NothingFrom(fields: seq<Field>, slots: seq<Slot>, k: nat)
    requires Typed(fields, slots) && k <= |fields|
    ensures EncodeFrom(fields, slots, k) == [] <==> forall i :: k <= i < |fields| ==> EncodeSlot(fields[i], slots[i]) == []
    decreases |fields| - k
  {
    hide EncodeSlot, TypedSlot;
    if k < |fields| {
      NothingFrom(fields, slots, k + 1);
    }
  }

  lemma VarintZero(n: nat)
    ensures |Varint(n)| > 0 && (n == 0 <==> Varint(n)[0] == 0) && (n == 0 ==> Varint(n) == [0])
  {
  }

  lemma FixedZero(n: nat, size: nat)
    requires n < Power256(size)
    ensures n == 0 <==> AllZero(Fixed(n, size))
  {
    ZeroFixed(size);
    if AllZero(Fixed(n, size)) {
      FixedRoundTrip(n, size);
      FixedRoundTrip(0, size);
      assert Fixed(n, size) == Fixed(0, size);
    }
  }

  lemma {:induction false} ZeroFixed(size: nat)
    ensures |Fixed(0, size)| == size && AllZero(Fixed(0, size))
  {
    if size > 0 {
      ZeroFixed(size - 1);
    }
  }

  /** Zigzag: 0, -1, 1, -2 become 0, 1, 2, 3; even numbers are those of the numbers that are not negative. */
  lemma ZigZagInNumbers(i: int)
    ensures ZigZag(0) == 0 && ZigZag(-1) == 1 && ZigZag(1) == 2 && ZigZag(-2) == 3
    ensures ZigZag(i) % 2 == 0 <==> i >= 0
    ensures ZigZag(i) / 2 == (if i >= 0 then i else -i - 1) && UnZigZag(ZigZag(i)) == i
  {
  }

  /** An unknown field is passed over: to the end of a varint, by eight bytes, by a length and so many bytes, by
      four bytes; any other wire type is refused. */
  lemma SkipInNumbers(wireType: nat, input: Bytes)
    ensures wireType == 1 ==> SkipField(wireType, input) == if |input| < 8 then None else Some(input[8..])
    ensures wireType == 5 ==> SkipField(wireType, input) == if |input| < 4 then None else Some(input[4..])
    ensures wireType !in {0, 1, 2, 5} ==> SkipField(wireType, input) == None
  {
    hide SkipVarint, TakeString;
  }

  lemma SkipsEncoded(n: nat, b: Bytes, rest: Bytes)
    requires |b| < TWO_32
    ensures SkipField(0, Varint(n) + rest) == Some(rest)
    ensures SkipField(2, Varint(|b|) + b + rest) == Some(rest)
  {
    hide Varint, DecodeVarint32, TakeString;
    VarintSkipped(n, rest);
    TakeStringReads(b, rest);
  }

  lemma {:induction false} VarintSkipped(n: nat, rest: Bytes)
    ensures SkipVarint(Varint(n) + rest) == Some(rest)
  {
    var input := Varint(n) + rest;
    if n < 128 {
      VarintByte(n);
      assert input[1..] == rest;
    } else {
      VarintStep(n);
      VarintSkipped(n / 128, rest);
      assert input[1..] == Varint(n / 128) + rest;
    }
  }

  /** Fields that the descriptor does not know make no difference. */
  lemma UnknownIsIgnored(fields: seq<Field>, slots: seq<Slot>, seen: set<nat>, tag: nat, wireType: nat, body: Bytes, rest: Bytes)
    requires |slots| == |fields| && fields != [] && 0 < tag < 0x2000_0000 && wireType < 8
    requires forall i :: 0 <= i < |fields| ==> fields[i].tag != tag
    requires SkipField(wireType, body + rest) == Some(rest)
    ensures DecodeFields(fields, slots, seen, Varint(8 * tag + wireType) + (body + rest)) == DecodeFields(fields, slots, seen, rest)
  {
    hide SkipField, Varint, DecodeTag, FindTag, DecodeSlot, Put, AllSeen;
    TagReads(tag, wireType, body + rest);
    UnknownStep(fields, slots, seen, Varint(8 * tag + wireType) + (body + rest), tag, wireType, body + rest, rest);
  }

  lemma UnknownStep(fields: seq<Field>, slots: seq<Slot>, seen: set<nat>, input: Bytes, tag: nat, wireType: nat, body: Bytes, rest: Bytes)
    requires |slots| == |fields| && fields != [] && input != [] && DecodeTag(input) == TagRead(tag, wireType, body)
    requires FindTag(fields, tag) == None && SkipField(wireType, body) == Some(rest)
    ensures DecodeFields(fields, slots, seen, input) == DecodeFields(fields, slots, seen, rest)
  {
    hide SkipField, DecodeTag, FindTag, DecodeSlot, Put, AllSeen;
  }

  /** The end of the message: accepted exactly when no required field is missing, of those with fewer than 64
      required ones before them. */
  lemma RequiredInNumbers(fields: seq<Field>, slots: seq<Slot>, seen: set<nat>)
    requires |slots| == |fields|
    ensures DecodeFields(fields, slots, seen, [])
         == if forall i :: 0 <= i < |fields| && fields[i].htype.Required? && RequiredBefore(fields, i) < 64 ==> i in seen
            then Some(slots) else None
  {
    hide RequiredIndex;
    forall i | 0 <= i < |fields| ensures RequiredIndex(fields, i) == RequiredBefore(fields, i) {
      RequiredCount(fields, i);
    }
    NothingLeft(fields, slots, seen);
  }

  ghost function RequiredBefore(fields: seq<Field>, i: nat): nat
    requires i <= |fields|
  {
    |set j | 0 <= j < i && fields[j].htype.Required?|
  }

  lemma {:induction false} RequiredCount(fields: seq<Field>, i: nat)
    requires i <= |fields|
    ensures RequiredIndex(fields, i) == RequiredBefore(fields, i)
  {
    if i > 0 {
      RequiredCount(fields, i - 1);
      OneMoreRequired(fields, i);
    }
  }

  lemma OneMoreRequired(fields: seq<Field>, i: nat)
    requires 0 < i <= |fields|
    ensures RequiredBefore(fields, i) == RequiredBefore(fields, i - 1) + if fields[i - 1].htype.Required? then 1 else 0
  {
    var now := set j | 0 <= j < i && fields[j].htype.Required?;
    var before := set j | 0 <= j < i - 1 && fields[j].htype.Required?;
    assert now == if fields[i - 1].htype.Required? then before + {i - 1} else before;
  }

  // ----- what is accepted -----

  /** Half of the range of a signed number of so many bytes. */
  function Half(size: nat): int {
    if size == 1 then 0x80 else if size == 2 then 0x8000 else if size == 4 then 0x8000_0000 else 0x8000_0000_0000_0000
  }

  /** Unsigned numbers are accepted exactly when they fit into the field's bytes. */
  lemma UnsignedAccepted(n: nat, size: nat, cur: Value, rest: Bytes)
    requires n < TWO_64 && IntSize(size)
    ensures DecodeValue(UvarintT(size), cur, Varint(n) + rest) == if n < 2 * Half(size) then Parsed(Int(n), rest) else Malformed
  {
    hide Varint, GetVarint64, Half, Span;
    WholeInNumbers(n, size);
    Varint64RoundTrip(n, rest);
  }

  lemma WholeInNumbers(n: nat, size: nat)
    requires n < TWO_64 && IntSize(size)
    ensures Span(size) == 2 * Half(size) && (0 <= n < Span(size) <==> n % Span(size) == n)
  {
  }

  lemma CutInNumbers(i: int, size: nat)
    requires IntSize(size)
    ensures Signed(i, Span(size)) == i <==> -Half(size) <= i < Half(size)
  {
  }

  /** The low 32 bits in two's complement, and all 64. */
  lemma TwosComplement(n: nat)
    requires n < TWO_64
    ensures Signed(n, TWO_32) == (if n % 0x1_0000_0000 >= 0x8000_0000 then n % 0x1_0000_0000 - 0x1_0000_0000 else n % 0x1_0000_0000)
    ensures Signed(n, TWO_64) == if n >= 0x8000_0000_0000_0000 then n - 0x1_0000_0000_0000_0000 else n
  {
  }

  /** Of a signed number, fields of up to four bytes take the low 32 bits in two's complement, and refuse what
      does not fit then. */
  lemma SignedAccepted(n: nat, size: nat, cur: Value, rest: Bytes)
    requires n < TWO_64 && IntSize(size)
    ensures var low: int := n % 0x1_0000_0000;
            var i: int := if size == 8 then (if n >= 0x8000_0000_0000_0000 then n - 0x1_0000_0000_0000_0000 else n)
                          else if low >= 0x8000_0000 then low - 0x1_0000_0000 else low;
            DecodeValue(VarintT(size), cur, Varint(n) + rest)
            == if -Half(size) <= i < Half(size) then Parsed(Int(i), rest) else Malformed
  {
    hide Varint, GetVarint64, Signed, Span, Half;
    Varint64RoundTrip(n, rest);
    TwosComplement(n);
    CutInNumbers(Signed(n, TWO_32), size);
    CutInNumbers(Signed(n, TWO_64), size);
  }

  /** A number in zigzag is accepted exactly when it fits into the field's bytes. */
  lemma ZigZagAccepted(i: int, size: nat, cur: Value, rest: Bytes)
    requires -0x8000_0000_0000_0000 <= i < 0x8000_0000_0000_0000 && IntSize(size)
    ensures DecodeValue(SvarintT(size), cur, Varint(ZigZag(i)) + rest)
         == if -Half(size) <= i < Half(size) then Parsed(Int(i), rest) else Malformed
  {
    hide Varint, GetVarint64, ZigZag, UnZigZag, Signed, Span, Half;
    ZigZagReads(i);
    ZigZagBound(i);
    Varint64RoundTrip(ZigZag(i), rest);
    CutInNumbers(i, size);
  }

  lemma ZigZagBound(i: int)
    requires -0x8000_0000_0000_0000 <= i < 0x8000_0000_0000_0000
    ensures ZigZag(i) < TWO_64
  {
  }

  /** Any 32-bit number but zero is true. */
  lemma BoolAccepted(n: nat, cur: Value, rest: Bytes)
    requires n < TWO_32
    ensures DecodeValue(BoolT, cur, Varint(n) + rest) == Parsed(Int(if n == 0 then 0 else 1), rest)
  {
    hide Varint, DecodeVarint32;
    DecodeVarint32Reads(n, rest);
  }

  /** Strings keep a byte of their room for the final zero; bytes of fixed length may also be empty, which
      stands for zeros. */
  lemma BlobsAccepted(b: Bytes, max: nat, cur: Value, rest: Bytes)
    requires |b| < TWO_32
    ensures DecodeValue(BytesT(max), cur, Varint(|b|) + b + rest) == if |b| <= max then Parsed(Blob(b), rest) else Malformed
    ensures DecodeValue(StringT(max), cur, Varint(|b|) + b + rest) == if |b| < max then Parsed(Blob(b), rest) else Malformed
    ensures DecodeValue(FixedBytesT(max), cur, Varint(|b|) + b + rest)
         == if b == [] then Parsed(Blob(Zeros(max)), rest) else if |b| == max then Parsed(Blob(b), rest) else Malformed
  {
    hide Varint, TakeString;
    TakeStringReads(b, rest);
  }
}
