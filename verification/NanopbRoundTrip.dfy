/** Decoding an encoded message merges it into what is there, and into a fresh message restores it, up to
    the contents of absent fields. */
module NanopbRoundTrip {
  import opened Keys
  import opened Sequences
  import opened Coding
  import opened Nanopb
  import opened NanopbMerge
  import opened NanopbDecode
  import NanopbEncode
  import NanopbReader

  /** What is left of a 32-bit number after `d` varint bytes is below this. */
  function Left(d: nat): nat {
    if d == 1 then 0x200_0000 else if d == 2 then 0x4_0000 else if d == 3 then 0x800 else 0x10
  }

  lemma Powers()
    ensures Power128(1) == 0x80 && Power128(2) == 0x4000 && Power128(3) == 0x20_0000 && Power128(4) == 0x1000_0000
  {
    assert Power128(1) == 128 * Power128(0);
    assert Power128(2) == 128 * Power128(1);
    assert Power128(3) == 128 * Power128(2);
    assert Power128(4) == 128 * Power128(3);
  }

  lemma {:induction false} Varint32RestReads(v: nat, rest: Bytes, result: nat, d: nat)
    requires 1 <= d <= 4 && v < Left(d) && result < Power128(d)
    ensures Varint32Rest(Varint(v) + rest, result, d) == Parsed(result + v * Power128(d), rest)
    decreases 5 - d
  {
    hide Power128, Varint, Varint32Rest, Left;
    LeftShrinks(v, result, d);
    if v < 128 {
      VarintByte(v);
      LastByte(v, rest, result, d);
    } else {
      VarintStep(v);
      Associates([v % 128 + 128], Varint(v / 128), rest);
      MiddleByte(v % 128, Varint(v / 128) + rest, result, d);
      Varint32RestReads(v / 128, rest, result + v % 128 * Power128(d), d + 1);
    }
  }

  /** The digits of a 32-bit number fit into their places. */
  lemma LeftShrinks(v: nat, result: nat, d: nat)
    requires 1 <= d <= 4 && v < Left(d) && result < Power128(d)
    ensures result + v * Power128(d) < TWO_32
    ensures v >= 128 ==> d < 4 && v / 128 < Left(d + 1) && result + v % 128 * Power128(d) < Power128(d + 1)
    ensures v >= 128 ==> result + v % 128 * Power128(d) + v / 128 * Power128(d + 1) == result + v * Power128(d)
    ensures result + v % 128 * Power128(d) < TWO_32 && (d == 4 ==> v < 16)
  {
    hide Power128;
    Powers();
    if d == 1 {
    } else if d == 2 {
    } else if d == 3 {
    } else {
    }
  }

  lemma LastByte(v: nat, rest: Bytes, result: nat, d: nat)
    requires 1 <= d <= 4 && v < 128 && result + v * Power128(d) < TWO_32 && (d == 4 ==> v < 16)
    ensures Varint32Rest([v] + rest, result, d) == Parsed(result + v * Power128(d), rest)
  {
    hide Power128, Varint32Rest;
    var input := [v] + rest;
    assert input[1..] == rest && input[0] == v;
    NanopbReader.Varint32RestUnfolds(input, result, d);
  }

  lemma MiddleByte(digit: nat, more: Bytes, result: nat, d: nat)
    requires 1 <= d <= 4 && digit < 128 && result + digit * Power128(d) < TWO_32
    ensures Varint32Rest([digit + 128] + more, result, d) == Varint32Rest(more, result + digit * Power128(d), d + 1)
  {
    hide Power128, Varint32Rest;
    var input := [digit + 128] + more;
    assert input[1..] == more && input[0] == digit + 128 && (digit + 128) % 128 == digit;
    NanopbReader.Varint32RestUnfolds(input, result, d);
  }

  lemma DecodeVarint32Reads(v: nat, rest: Bytes)
    requires v < TWO_32
    ensures DecodeVarint32(Varint(v) + rest) == Parsed(v, rest)
  {
    hide Power128, Varint32Rest;
    Powers();
    var input := Varint(v) + rest;
    if v < 128 {
      VarintByte(v);
      assert input == [v] + rest && input[1..] == rest;
    } else {
      VarintStep(v);
      assert input == [v % 128 + 128] + (Varint(v / 128) + rest);
      assert input[1..] == Varint(v / 128) + rest;
      Varint32RestReads(v / 128, rest, v % 128, 1);
    }
  }

  lemma TakeStringReads(b: Bytes, rest: Bytes)
    requires |b| < TWO_32
    ensures TakeString(Varint(|b|) + b + rest) == Parsed(b, rest)
  {
    hide DecodeVarint32, Varint;
    Associates(Varint(|b|), b, rest);
    DecodeVarint32Reads(|b|, b + rest);
  }

  lemma TakeBytesReads(b: Bytes, rest: Bytes)
    ensures TakeBytes(b + rest, |b|) == Parsed(b, rest)
  {
  }

  /** A signed value survives two's complement at 64 bits and the cut to its size. */
  lemma SignedReads(i: int, size: nat)
    requires IntSize(size) && -Span(size) <= 2 * i < Span(size)
    ensures -0x1_0000_0000_0000_0000 <= 2 * i < 0x1_0000_0000_0000_0000
    ensures Signed(i, Span(size)) == i
    ensures (if size == 8 then Signed(Unsigned64(i), TWO_64) else Signed(Unsigned64(i), TWO_32)) == i
  {
  }

  lemma ZigZagReads(i: int)
    ensures UnZigZag(ZigZag(i)) == i
  {
  }

  lemma SignedNumberReads(t: LType, v: Value, rest: Bytes)
    requires SizesOk(t) && TypedValue(t, v) && t.VarintT?
    ensures forall cur :: DecodeValue(t, cur, EncodeValue(t, v) + rest) == Parsed(v, rest)
  {
    hide Varint, GetVarint64, Signed, Span;
    SignedReads(v.i, t.size);
    Varint64RoundTrip(Unsigned64(v.i), rest);
  }

  lemma ZigZagNumberReads(t: LType, v: Value, rest: Bytes)
    requires SizesOk(t) && TypedValue(t, v) && t.SvarintT?
    ensures forall cur :: DecodeValue(t, cur, EncodeValue(t, v) + rest) == Parsed(v, rest)
  {
    hide Varint, GetVarint64, Signed, Span;
    SignedReads(v.i, t.size);
    ZigZagReads(v.i);
    Varint64RoundTrip(ZigZag(v.i), rest);
  }

  lemma NumberReads(t: LType, v: Value, rest: Bytes)
    requires SizesOk(t) && TypedValue(t, v) && Packable(t)
    ensures DecodeValue(t, DefaultValue(t), EncodeValue(t, v) + rest) == Parsed(v, rest)
    ensures forall cur :: DecodeValue(t, cur, EncodeValue(t, v) + rest) == Parsed(v, rest)
    ensures NormValue(t, v) == v
  {
    hide Varint, GetVarint64, DecodeVarint32, Fixed, FixedValue;
    match t
    case BoolT => DecodeVarint32Reads(v.i, rest);
    case VarintT(_) => SignedNumberReads(t, v, rest);
    case UvarintT(_) => Varint64RoundTrip(v.i, rest);
    case SvarintT(_) => ZigZagNumberReads(t, v, rest);
    case Fixed32T =>
      Fixed32RoundTrip(v.i);
      TakeBytesReads(Fixed(v.i, 4), rest);
    case Fixed64T =>
      Fixed64Reads(v.i);
      TakeBytesReads(Fixed(v.i, 8), rest);
  }

  lemma Fixed64Reads(v: nat)
    requires v < TWO_64
    ensures FixedValue(Fixed(v, 8)) == v
  {
    assert Power256(4) == 256 * (256 * (256 * (256 * Power256(0))));
    assert Power256(8) == 256 * (256 * (256 * (256 * Power256(4))));
    FixedRoundTrip(v, 8);
  }

  /** Decoding any value's encoding, whatever follows it, merges the value into what was there. It is refused
      exactly when something in it does not fit. */
  lemma {:induction false} ValueMerges(t: LType, v: Value, cur: Value, rest: Bytes)
    requires SizesOk(t) && TypedValue(t, v) && |EncodeValue(t, v)| < TWO_32
    ensures DecodeValue(t, cur, EncodeValue(t, v) + rest)
         == if FitsValue(t, cur, v) then Parsed(MergeValue(t, cur, v), rest) else Malformed
    decreases t, 0
  {
    hide Varint, TakeString, EncodeFields, NormSlots, DecodeFields, DefaultSlots, TypedSlot, DescriptorOk, MergeSlots, FitsSlots, AllSeen;
    if Packable(t) {
      NumberReads(t, v, rest);
    } else if t.MessageT? {
      var body := EncodeFields(t.fields, v.slots);
      var slots := BaseSlots(t.fields, cur);
      TakeStringReads(body, rest);
      assert body + [] == body;
      MergeReads(t.fields, slots, v.slots, {}, []);
      AllPresent(t.fields, v.slots);
      NothingLeft(t.fields, MergeSlots(t.fields, slots, v.slots, |t.fields|), {} + PresentFrom(t.fields, v.slots, 0));
    } else {
      TakeStringReads(v.b, rest);
      ZerosOnly(t);
    }
  }

  lemma NothingLeft(fields: seq<Field>, slots: seq<Slot>, seen: set<nat>)
    requires |slots| == |fields|
    ensures DecodeFields(fields, slots, seen, []) == if AllSeen(fields, seen) then Some(slots) else None
  {
    hide AllSeen;
  }

  /** The fields from number `k` on that are encoded. */
  ghost function PresentFrom(fields: seq<Field>, m: seq<Slot>, k: nat): set<nat>
    requires |m| == |fields|
  {
    set i | k <= i < |fields| && Present(fields[i], m[i])
  }

  lemma AllPresent(fields: seq<Field>, m: seq<Slot>)
    requires |m| == |fields|
    ensures forall seen: set<nat> :: AllSeen(fields, seen + PresentFrom(fields, m, 0))
  {
    hide RequiredIndex;
  }

  /** Into a default, any value is read back. */
  lemma {:induction false} ValueReads(t: LType, v: Value, cur: Value, rest: Bytes)
    requires SizesOk(t) && TypedValue(t, v) && ValueWithin(t, v) && |EncodeValue(t, v)| < TWO_32
    requires t.MessageT? ==> cur == DefaultValue(t)
    ensures DecodeValue(t, cur, EncodeValue(t, v) + rest) == Parsed(NormValue(t, v), rest)
  {
    hide DecodeValue, EncodeValue, TypedValue, MergeSlots, FitsSlots, DefaultSlots, NormSlots, AllWithin;
    ValueMerges(t, v, cur, rest);
    MergeIntoDefault(t, v);
  }

  lemma ZerosOnly(t: LType)
    ensures t.FixedBytesT? && t.size == 0 ==> Zeros(t.size) == []
  {
  }

  lemma {:induction false} ItemsPacked(t: LType, done: seq<Value>, items: seq<Value>, max: nat)
    requires SizesOk(t) && Packable(t) && forall k :: 0 <= k < |items| ==> TypedValue(t, items[k])
    ensures DecodePacked(t, done, max, EncodeItems(t, items))
         == if items == [] || |done| + |items| <= max then Some(done + items) else None
    decreases |items|
  {
    hide DecodeValue, EncodeValue, TypedValue;
    if items == [] {
      assert done + items == done;
    } else if |done| >= max {
      NoRoomPacked(t, done, items, max);
    } else {
      var rest := EncodeItems(t, items[1..]);
      NumberReads(t, items[0], rest);
      ItemsPacked(t, done + [items[0]], items[1..], max);
      assert done + [items[0]] + items[1..] == done + items;
      PackedStep(t, done, items, max);
    }
  }

  lemma NoRoomPacked(t: LType, done: seq<Value>, items: seq<Value>, max: nat)
    requires items != [] && |done| >= max && forall k :: 0 <= k < |items| ==> TypedValue(t, items[k])
    ensures DecodePacked(t, done, max, EncodeItems(t, items)) == None
  {
    hide DecodeValue, TypedValue, EncodeValue;
    ValueTakesBytes(t, items[0]);
  }

  lemma ValueTakesBytes(t: LType, v: Value)
    requires TypedValue(t, v)
    ensures EncodeValue(t, v) != []
  {
    hide Varint, EncodeFields;
  }

  lemma PackedStep(t: LType, done: seq<Value>, items: seq<Value>, max: nat)
    requires items != [] && |done| < max && forall k :: 0 <= k < |items| ==> TypedValue(t, items[k])
    requires DecodeValue(t, DefaultValue(t), EncodeValue(t, items[0]) + EncodeItems(t, items[1..]))
          == Parsed(items[0], EncodeItems(t, items[1..]))
    ensures DecodePacked(t, done, max, EncodeItems(t, items)) == DecodePacked(t, done + [items[0]], max, EncodeItems(t, items[1..]))
  {
    hide DecodeValue, EncodeValue, TypedValue;
  }

  lemma {:induction false} NormItemsOfNumbers(t: LType, items: seq<Value>)
    requires Packable(t)
    ensures NormItems(t, items) == items
  {
    assert forall k :: 0 <= k < |items| ==> NormItems(t, items)[k] == NormValue(t, items[k]) == items[k];
  }

  /** What is absent is as if it were at its default. */
  lemma {:induction false} ZeroIsDefault(t: LType, v: Value)
    requires TypedValue(t, v) && IsZero(t, v)
    ensures NormValue(t, v) == DefaultValue(t)
    decreases t
  {
    match t
    case MessageT(fields) =>
      forall i | 0 <= i < |fields| ensures NormSlots(fields, v.slots)[i] == DefaultSlots(fields)[i] {
        ZeroSlotIsDefault(fields[i], v.slots[i]);
      }
      assert NormSlots(fields, v.slots) == DefaultSlots(fields);
    case _ =>
  }

  lemma {:induction false} ZeroSlotIsDefault(f: Field, s: Slot)
    requires TypedSlot(f, s) && IsZeroSlot(f, s)
    ensures NormSlot(f, s) == DefaultSlot(f)
    decreases f
  {
    if f.htype.Singular? {
      ZeroIsDefault(f.ltype, s.value);
    }
  }

  lemma TagReads(tag: nat, wireType: nat, rest: Bytes)
    requires 0 < tag < 0x2000_0000 && wireType < 8
    ensures DecodeTag(TagBytes(tag, wireType) + rest) == TagRead(tag, wireType, rest) && TagBytes(tag, wireType) != []
  {
    hide DecodeVarint32, Varint;
    DecodeVarint32Reads(tag * 8 + wireType, rest);
  }

  lemma FindsField(fields: seq<Field>, k: nat)
    requires DescriptorOk(fields) && k < |fields|
    ensures FindTag(fields, fields[k].tag) == Some(k)
  {
    assert forall i :: 0 <= i < |fields| && i != k ==> fields[i].tag != fields[k].tag;
  }

  /** One round of the decoding loop, on a field of the descriptor. */
  lemma FieldStep(fields: seq<Field>, slots: seq<Slot>, seen: set<nat>, k: nat, wireType: nat, body: Bytes, s: Slot, rest: Bytes)
    requires DescriptorOk(fields) && k < |fields| == |slots| && wireType < 8
    requires DecodeSlot(fields[k], slots[k], wireType, body) == Parsed(s, rest)
    ensures DecodeFields(fields, slots, seen, TagBytes(fields[k].tag, wireType) + body)
         == DecodeFields(fields, Put(fields, slots, k, s), seen + {k}, rest)
  {
    hide DecodeSlot, TagBytes, DecodeTag, FindTag, Put, AllSeen;
    assert FieldOk(fields[k]);
    TagReads(fields[k].tag, wireType, body);
    FindsField(fields, k);
    FieldStepUnfolds(fields, slots, seen, k, wireType, body, s, rest);
  }

  lemma FieldStepUnfolds(fields: seq<Field>, slots: seq<Slot>, seen: set<nat>, k: nat, wireType: nat, body: Bytes, s: Slot, rest: Bytes)
    requires k < |fields| == |slots|
    requires DecodeTag(TagBytes(fields[k].tag, wireType) + body) == TagRead(fields[k].tag, wireType, body)
    requires TagBytes(fields[k].tag, wireType) != [] && FindTag(fields, fields[k].tag) == Some(k)
    requires DecodeSlot(fields[k], slots[k], wireType, body) == Parsed(s, rest)
    ensures DecodeFields(fields, slots, seen, TagBytes(fields[k].tag, wireType) + body)
         == DecodeFields(fields, Put(fields, slots, k, s), seen + {k}, rest)
  {
    hide DecodeSlot, TagBytes, DecodeTag, FindTag, Put, AllSeen;
  }

  /** The same when the value does not fit. */
  lemma FieldStepFails(fields: seq<Field>, slots: seq<Slot>, seen: set<nat>, k: nat, wireType: nat, body: Bytes)
    requires DescriptorOk(fields) && k < |fields| == |slots| && wireType < 8
    requires DecodeSlot(fields[k], slots[k], wireType, body) == Malformed
    ensures DecodeFields(fields, slots, seen, TagBytes(fields[k].tag, wireType) + body) == None
  {
    hide DecodeSlot, TagBytes, DecodeTag, FindTag, Put, AllSeen;
    assert FieldOk(fields[k]);
    TagReads(fields[k].tag, wireType, body);
    FindsField(fields, k);
  }

  /** One occurrence of a field that is not repeated. */
  lemma {:induction false} SingleReads(f: Field, s: Slot, cur: Slot, rest: Bytes)
    requires FieldOk(f) && TypedSlot(f, s) && Present(f, s) && !f.htype.Repeated? && |EncodeValue(f.ltype, s.value)| < TWO_32
    ensures DecodeSlot(f, cur, WireType(f.ltype), EncodeValue(f.ltype, s.value) + rest)
         == if FitsSlot(f, cur, s) then Parsed(MergeSlot(f, cur, s), rest) else Malformed
    decreases f, 0
  {
    hide DecodeValue, EncodeValue, MergeValue, TypedValue, IsZero, FitsValue;
    ValueMerges(f.ltype, s.value, Before(f, cur), rest);
  }

  /** Items with a tag each are added one by one, behind the items that are there; packed or not, they may
      come so. */
  lemma {:induction false} EachReads(f: Field, fields: seq<Field>, slots: seq<Slot>, seen: set<nat>, k: nat,
                                     items: seq<Value>, rest: Bytes)
    requires DescriptorOk(fields) && k < |fields| == |slots| && fields[k] == f && FieldOk(f)
    requires f.htype.Repeated? && items != [] && forall i :: 0 <= i < |items| ==> TypedValue(f.ltype, items[i])
    requires |EncodeEach(f.tag, f.ltype, items)| < TWO_32
    ensures DecodeFields(fields, slots, seen, EncodeEach(f.tag, f.ltype, items) + rest)
         == if FitsItems(f, |ItemsOf(slots[k])|, items)
            then DecodeFields(fields, slots[k := Many(ItemsOf(slots[k]) + NormItems(f.ltype, items))], seen + {k}, rest)
            else None
    decreases f, 0, |items|
  {
    hide DecodeValue, EncodeValue, NormValue, TypedValue, FitsValue, DecodeFields, TagBytes, DescriptorOk, Packable, EncodeEach;
    hide DecodeSlot, FitsItems, NormItems, SizesOk;
    var v, more, done := items[0], items[1..], ItemsOf(slots[k]);
    var done1 := done + [NormValue(f.ltype, v)];
    var slots1 := slots[k := Many(done1)];
    EachInParts(f, items, rest);
    ItemReads(f, slots[k], v, EncodeEach(f.tag, f.ltype, more) + rest);
    EachStep(f, fields, slots, seen, k, items, rest);
    NormItemsSplit(f.ltype, items);
    FitsItemsSplit(f, |done|, items);
    if more == [] {
      NoneEach(f, rest);
      assert done + ([NormValue(f.ltype, v)] + []) == done1;
    } else if |done| < f.htype.max && FitsValue(f.ltype, DefaultValue(f.ltype), v) {
      EachReads(f, fields, slots1, seen + {k}, k, more, rest);
      assert seen + {k} + {k} == seen + {k};
      assert done1 + NormItems(f.ltype, more) == done + NormItems(f.ltype, items);
      assert slots1[k := Many(done1 + NormItems(f.ltype, more))] == slots[k := Many(done1 + NormItems(f.ltype, more))];
    }
  }

  /** The first item is taken, or refused. */
  lemma EachStep(f: Field, fields: seq<Field>, slots: seq<Slot>, seen: set<nat>, k: nat, items: seq<Value>, rest: Bytes)
    requires DescriptorOk(fields) && k < |fields| == |slots| && fields[k] == f && f.htype.Repeated?
    requires items != [] && forall i :: 0 <= i < |items| ==> TypedValue(f.ltype, items[i])
    requires var tail := EncodeEach(f.tag, f.ltype, items[1..]) + rest;
             DecodeSlot(f, slots[k], WireType(f.ltype), EncodeValue(f.ltype, items[0]) + tail)
             == if |ItemsOf(slots[k])| < f.htype.max && FitsValue(f.ltype, DefaultValue(f.ltype), items[0])
                then Parsed(Many(ItemsOf(slots[k]) + [NormValue(f.ltype, items[0])]), tail) else Malformed
    ensures DecodeFields(fields, slots, seen, EncodeEach(f.tag, f.ltype, items) + rest)
         == if |ItemsOf(slots[k])| < f.htype.max && FitsValue(f.ltype, DefaultValue(f.ltype), items[0])
            then DecodeFields(fields, slots[k := Many(ItemsOf(slots[k]) + [NormValue(f.ltype, items[0])])], seen + {k},
                              EncodeEach(f.tag, f.ltype, items[1..]) + rest)
            else None
  {
    hide DecodeValue, EncodeValue, NormValue, TypedValue, FitsValue, DecodeFields, TagBytes, DescriptorOk, EncodeEach, DecodeSlot, Put;
    var done, tail := ItemsOf(slots[k]), EncodeEach(f.tag, f.ltype, items[1..]) + rest;
    var s := Many(done + [NormValue(f.ltype, items[0])]);
    EachInParts(f, items, rest);
    if |done| < f.htype.max && FitsValue(f.ltype, DefaultValue(f.ltype), items[0]) {
      FieldStep(fields, slots, seen, k, WireType(f.ltype), EncodeValue(f.ltype, items[0]) + tail, s, tail);
      NotOneof(fields, slots, k, s);
    } else {
      FieldStepFails(fields, slots, seen, k, WireType(f.ltype), EncodeValue(f.ltype, items[0]) + tail);
    }
  }

  lemma NoneEach(f: Field, rest: Bytes)
    ensures EncodeEach(f.tag, f.ltype, []) + rest == rest && NormItems(f.ltype, []) == []
  {
  }

  lemma FitsItemsSplit(f: Field, done: nat, items: seq<Value>)
    requires f.htype.Repeated? && items != []
    ensures FitsItems(f, done, items) <==>
              && done < f.htype.max && FitsValue(f.ltype, DefaultValue(f.ltype), items[0])
              && (items[1..] == [] || FitsItems(f, done + 1, items[1..]))
  {
    hide FitsValue;
    assert forall k :: 1 <= k < |items| ==> items[k] == items[1..][k - 1];
    if items[1..] != [] && FitsItems(f, done + 1, items[1..]) && FitsValue(f.ltype, DefaultValue(f.ltype), items[0]) {
      forall k | 0 <= k < |items| ensures FitsValue(f.ltype, DefaultValue(f.ltype), items[k]) {
        assert k > 0 ==> items[k] == items[1..][k - 1];
      }
    }
    if FitsItems(f, done, items) {
      forall k | 0 <= k < |items[1..]| ensures FitsValue(f.ltype, DefaultValue(f.ltype), items[1..][k]) {
        assert items[1..][k] == items[k + 1];
      }
    }
  }

  /** One item under its own tag goes behind the items that are there, if there is room. */
  lemma {:induction false} ItemReads(f: Field, cur: Slot, v: Value, rest: Bytes)
    requires FieldOk(f) && f.htype.Repeated? && TypedValue(f.ltype, v) && |EncodeValue(f.ltype, v)| < TWO_32
    ensures DecodeSlot(f, cur, WireType(f.ltype), EncodeValue(f.ltype, v) + rest)
         == if |ItemsOf(cur)| < f.htype.max && FitsValue(f.ltype, DefaultValue(f.ltype), v)
            then Parsed(Many(ItemsOf(cur) + [NormValue(f.ltype, v)]), rest) else Malformed
    decreases f, 0, 0
  {
    hide DecodeValue, EncodeValue, NormValue, MergeValue, TypedValue, FitsValue, DecodePacked;
    ValueMerges(f.ltype, v, DefaultValue(f.ltype), rest);
    MergeIntoDefault(f.ltype, v);
  }

  lemma EachInParts(f: Field, items: seq<Value>, rest: Bytes)
    requires items != [] && forall i :: 0 <= i < |items| ==> TypedValue(f.ltype, items[i])
    ensures EncodeEach(f.tag, f.ltype, items) + rest
         == TagBytes(f.tag, WireType(f.ltype)) + (EncodeValue(f.ltype, items[0]) + (EncodeEach(f.tag, f.ltype, items[1..]) + rest))
    ensures |EncodeEach(f.tag, f.ltype, items)| >= |EncodeValue(f.ltype, items[0])|
    ensures |EncodeEach(f.tag, f.ltype, items)| >= |EncodeEach(f.tag, f.ltype, items[1..])|
  {
    hide EncodeValue, TypedValue, TagBytes, WireType;
    var a, b, c := TagBytes(f.tag, WireType(f.ltype)), EncodeValue(f.ltype, items[0]), EncodeEach(f.tag, f.ltype, items[1..]);
    Associates(a + b, c, rest);
    Associates(a, b, c + rest);
  }

  lemma NormItemsSplit(t: LType, items: seq<Value>)
    requires items != []
    ensures NormItems(t, items) == [NormValue(t, items[0])] + NormItems(t, items[1..])
  {
    hide NormValue;
  }

  /** The encoding of field `k`, from the message merged with the fields before it to that merged with it. */
  lemma {:induction false} SlotReads(f: Field, fields: seq<Field>, slots: seq<Slot>, m: seq<Slot>, k: nat, seen: set<nat>, rest: Bytes)
    requires DescriptorOk(fields) && Typed(fields, m) && k < |fields| == |slots| && f == fields[k]
    requires FieldOk(f) && TypedSlot(f, m[k]) && |EncodeSlot(f, m[k])| < TWO_32
    ensures DecodeFields(fields, MergeSlots(fields, slots, m, k), seen, EncodeSlot(f, m[k]) + rest)
         == if FitsSlot(f, slots[k], m[k])
            then DecodeFields(fields, MergeSlots(fields, slots, m, k + 1), if Present(f, m[k]) then seen + {k} else seen, rest)
            else None
    decreases f, 1
  {
    hide DecodeFields, TagBytes, DescriptorOk, EncodeValue, EncodeItems, EncodeEach, Varint, TypedSlot, MergeSlot, MergeSlots;
    hide FitsItems, FitsValue, Put, DecodeSlot;
    var s := m[k];
    var state, next := MergeSlots(fields, slots, m, k), MergeSlots(fields, slots, m, k + 1);
    StateBefore(fields, slots, m, k);
    if !Present(f, s) {
      AbsentChangesNothing(fields, slots, m, k);
      assert EncodeSlot(f, s) + rest == rest;
    } else if !f.htype.Repeated? {
      SingleInParts(f, s, rest);
      SingleReads(f, s, slots[k], rest);
      var body := EncodeValue(f.ltype, s.value) + rest;
      if FitsSlot(f, slots[k], s) {
        FieldStep(fields, state, seen, k, WireType(f.ltype), body, MergeSlot(f, slots[k], s), rest);
        PutIsNext(fields, slots, m, k);
      } else {
        FieldStepFails(fields, state, seen, k, WireType(f.ltype), body);
      }
    } else if Packable(f.ltype) {
      PackedReads(f, s, slots[k], rest);
      if FitsSlot(f, slots[k], s) {
        FieldStep(fields, state, seen, k, WT_STRING, PackedBody(f, s) + rest, MergeSlot(f, slots[k], s), rest);
        PutIsNext(fields, slots, m, k);
      } else {
        FieldStepFails(fields, state, seen, k, WT_STRING, PackedBody(f, s) + rest);
      }
    } else {
      ItemsOk(f, s);
      EachReads(f, fields, state, seen, k, s.items, rest);
      PutIsNext(fields, slots, m, k);
      EachIsMerge(f, slots[k], s);
      assert Put(fields, state, k, MergeSlot(f, slots[k], s)) == state[k := MergeSlot(f, slots[k], s)] by {
        NotOneof(fields, state, k, MergeSlot(f, slots[k], s));
      }
    }
  }

  lemma NotOneof(fields: seq<Field>, slots: seq<Slot>, k: nat, s: Slot)
    requires k < |fields| == |slots| && fields[k].htype.Repeated?
    ensures Put(fields, slots, k, s) == slots[k := s]
  {
  }

  lemma EachIsMerge(f: Field, cur: Slot, s: Slot)
    requires f.htype.Repeated? && Present(f, s)
    ensures s.Many? && MergeSlot(f, cur, s) == Many(ItemsOf(cur) + NormItems(f.ltype, s.items))
    ensures FitsSlot(f, cur, s) <==> FitsItems(f, |ItemsOf(cur)|, s.items)
  {
    hide FitsItems, NormItems;
  }

  /** A present field meets what was there: no other of its oneof is present. */
  lemma StateBefore(fields: seq<Field>, slots: seq<Slot>, m: seq<Slot>, k: nat)
    requires Typed(fields, m) && k < |fields| == |slots|
    ensures Present(fields[k], m[k]) ==> MergeSlots(fields, slots, m, k)[k] == slots[k]
    ensures Present(fields[k], m[k]) ==> forall n :: 0 <= n <= |fields| ==> !Displaced(fields, m, k, n)
  {
    hide MergeSlots, TypedSlot, TypedValue;
    if Present(fields[k], m[k]) {
      forall n | 0 <= n <= |fields| ensures !Displaced(fields, m, k, n) {
        if j :| 0 <= j < n && j != k && fields[k].htype.Oneof? && fields[j].htype == fields[k].htype && Present(fields[j], m[j]) {
          BothPresent(fields, m, j, k);
        }
      }
      assert MergedAt(fields, slots, m, k, k) == slots[k];
    }
  }

  /** Of a oneof only one field is present. */
  lemma BothPresent(fields: seq<Field>, m: seq<Slot>, j: nat, k: nat)
    requires Typed(fields, m) && j < |fields| && k < |fields| && j != k && fields[k].htype.Oneof?
    requires fields[j].htype == fields[k].htype
    ensures !(Present(fields[j], m[j]) && Present(fields[k], m[k]))
  {
    hide TypedValue;
    assert TypedSlot(fields[j], m[j]) && TypedSlot(fields[k], m[k]);
  }

  lemma AbsentChangesNothing(fields: seq<Field>, slots: seq<Slot>, m: seq<Slot>, k: nat)
    requires k < |fields| == |slots| == |m| && !Present(fields[k], m[k])
    ensures MergeSlots(fields, slots, m, k + 1) == MergeSlots(fields, slots, m, k)
  {
    hide MergeSlots, MergeSlot, Present, DefaultSlot;
    forall i | 0 <= i < |fields| ensures MergedAt(fields, slots, m, k, i) == MergedAt(fields, slots, m, k + 1, i) {
    }
    MergeIsPointwise(fields, slots, m, k + 1, MergeSlots(fields, slots, m, k));
  }

  lemma SingleInParts(f: Field, s: Slot, rest: Bytes)
    requires TypedSlot(f, s) && Present(f, s) && !f.htype.Repeated?
    ensures s.One? && TypedValue(f.ltype, s.value)
    ensures EncodeSlot(f, s) + rest == TagBytes(f.tag, WireType(f.ltype)) + (EncodeValue(f.ltype, s.value) + rest)
    ensures |EncodeValue(f.ltype, s.value)| <= |EncodeSlot(f, s)|
  {
    hide EncodeValue, TagBytes, WireType, IsZero, TypedValue;
    Associates(TagBytes(f.tag, WireType(f.ltype)), EncodeValue(f.ltype, s.value), rest);
  }

  function PackedBody(f: Field, s: Slot): Bytes
    requires TypedSlot(f, s) && f.htype.Repeated?
  {
    Varint(|EncodeItems(f.ltype, s.items)|) + EncodeItems(f.ltype, s.items)
  }

  /** A packed run of items goes behind the items that are there, if there is room for all of it. */
  lemma PackedReads(f: Field, s: Slot, cur: Slot, rest: Bytes)
    requires FieldOk(f) && TypedSlot(f, s) && Present(f, s) && f.htype.Repeated? && Packable(f.ltype)
    requires |EncodeSlot(f, s)| < TWO_32
    ensures EncodeSlot(f, s) + rest == TagBytes(f.tag, WT_STRING) + (PackedBody(f, s) + rest)
    ensures FitsSlot(f, cur, s) <==> |ItemsOf(cur)| + |s.items| <= f.htype.max
    ensures DecodeSlot(f, cur, WT_STRING, PackedBody(f, s) + rest)
         == if FitsSlot(f, cur, s) then Parsed(Many(ItemsOf(cur) + s.items), rest) else Malformed
    ensures MergeSlot(f, cur, s) == Many(ItemsOf(cur) + s.items)
  {
    hide EncodeItems, TagBytes, Varint, TypedValue, TakeString, DecodePacked, NormItems;
    var body := EncodeItems(f.ltype, s.items);
    assert TagBytes(f.tag, WT_STRING) + Varint(|body|) + body + rest == TagBytes(f.tag, WT_STRING) + (Varint(|body|) + body + rest);
    TakeStringReads(body, rest);
    ItemsPacked(f.ltype, ItemsOf(cur), s.items, f.htype.max);
    NormItemsOfNumbers(f.ltype, s.items);
    NumbersFit(f, |ItemsOf(cur)|, s.items);
  }

  lemma NumbersFit(f: Field, done: nat, items: seq<Value>)
    requires f.htype.Repeated? && Packable(f.ltype)
    ensures FitsItems(f, done, items) <==> done + |items| <= f.htype.max
  {
  }

  lemma ItemsOk(f: Field, s: Slot)
    requires TypedSlot(f, s) && f.htype.Repeated? && !Packable(f.ltype) && Present(f, s)
    ensures s.Many? && s.items != []
    ensures forall i :: 0 <= i < |s.items| ==> TypedValue(f.ltype, s.items[i])
    ensures EncodeSlot(f, s) == EncodeEach(f.tag, f.ltype, s.items)
  {
    hide TypedValue, EncodeEach;
  }

  /** A field put in its place, with the others of its oneof gone. */
  lemma PutIsNext(fields: seq<Field>, slots: seq<Slot>, m: seq<Slot>, k: nat)
    requires Typed(fields, m) && k < |fields| == |slots| && Present(fields[k], m[k])
    ensures Put(fields, MergeSlots(fields, slots, m, k), k, MergeSlot(fields[k], slots[k], m[k]))
         == MergeSlots(fields, slots, m, k + 1)
  {
    hide MergeSlots, MergeSlot, DefaultSlot, TypedSlot, Present;
    var state, f := MergeSlots(fields, slots, m, k), fields[k];
    var put := Put(fields, state, k, MergeSlot(f, slots[k], m[k]));
    forall i | 0 <= i < |fields| ensures put[i] == MergedAt(fields, slots, m, k + 1, i) {
      StateBefore(fields, slots, m, i);
      if i != k {
        OthersStay(fields, slots, m, k, i);
      }
    }
    MergeIsPointwise(fields, slots, m, k + 1, put);
  }

  lemma OthersStay(fields: seq<Field>, slots: seq<Slot>, m: seq<Slot>, k: nat, i: nat)
    requires k < |fields| == |slots| == |m| && i < |fields| && i != k && Present(fields[k], m[k])
    requires Present(fields[i], m[i]) ==> forall n :: 0 <= n <= |fields| ==> !Displaced(fields, m, i, n)
    ensures MergedAt(fields, slots, m, k + 1, i)
         == if fields[k].htype.Oneof? && fields[i].htype == fields[k].htype then DefaultSlot(fields[i])
            else MergedAt(fields, slots, m, k, i)
  {
    hide MergeSlots, MergeSlot, DefaultSlot, Present;
    assert Displaced(fields, m, i, k + 1) <==>
             Displaced(fields, m, i, k) || (fields[k].htype.Oneof? && fields[i].htype == fields[k].htype);
  }

  /** The fields from number `k` on. */
  lemma {:induction false} FromReads(fields: seq<Field>, slots: seq<Slot>, m: seq<Slot>, k: nat, seen: set<nat>, rest: Bytes)
    requires DescriptorOk(fields) && Typed(fields, m) && k <= |fields| == |slots| && |EncodeFrom(fields, m, k)| < TWO_32
    ensures DecodeFields(fields, MergeSlots(fields, slots, m, k), seen, EncodeFrom(fields, m, k) + rest)
         == if FitsSlots(fields, slots, m, k)
            then DecodeFields(fields, MergeSlots(fields, slots, m, |fields|), seen + PresentFrom(fields, m, k), rest)
            else None
    decreases fields, |fields| - k
  {
    hide MergeSlots, EncodeSlot, TypedSlot, FieldOk, FitsSlot, Present, DecodeFields;
    if k == |fields| {
      assert EncodeFrom(fields, m, k) + rest == rest;
      assert seen + PresentFrom(fields, m, k) == seen;
    } else {
      var f, tail := fields[k], EncodeFrom(fields, m, k + 1);
      assert FieldOk(f) && TypedSlot(f, m[k]);
      FromInParts(fields, m, k, rest);
      SlotReads(f, fields, slots, m, k, seen, tail + rest);
      var seen1 := if Present(f, m[k]) then seen + {k} else seen;
      FromReads(fields, slots, m, k + 1, seen1, rest);
      assert seen1 + PresentFrom(fields, m, k + 1) == seen + PresentFrom(fields, m, k);
    }
  }

  lemma FromInParts(fields: seq<Field>, m: seq<Slot>, k: nat, rest: Bytes)
    requires Typed(fields, m) && k < |fields|
    ensures TypedSlot(fields[k], m[k])
    ensures EncodeFrom(fields, m, k) + rest == EncodeSlot(fields[k], m[k]) + (EncodeFrom(fields, m, k + 1) + rest)
    ensures |EncodeFrom(fields, m, k)| == |EncodeSlot(fields[k], m[k])| + |EncodeFrom(fields, m, k + 1)|
  {
    hide EncodeSlot, TypedSlot;
    Associates(EncodeSlot(fields[k], m[k]), EncodeFrom(fields, m, k + 1), rest);
  }

  /** Decoding an encoded message into any message, whatever follows, merges it in, or is refused exactly when
      it does not fit. */
  lemma {:induction false} MergeReads(fields: seq<Field>, slots: seq<Slot>, m: seq<Slot>, seen: set<nat>, rest: Bytes)
    requires DescriptorOk(fields) && Typed(fields, m) && |slots| == |fields| && |EncodeFields(fields, m)| < TWO_32
    ensures DecodeFields(fields, slots, seen, EncodeFields(fields, m) + rest)
         == if FitsSlots(fields, slots, m, 0)
            then DecodeFields(fields, MergeSlots(fields, slots, m, |fields|), seen + PresentFrom(fields, m, 0), rest)
            else None
    decreases fields, |fields| + 1
  {
    hide DecodeFields, MergeSlots, EncodeFrom, FitsSlots;
    NothingMerged(fields, slots, m);
    FromReads(fields, slots, m, 0, seen, rest);
  }

  lemma NothingMerged(fields: seq<Field>, slots: seq<Slot>, m: seq<Slot>)
    requires |slots| == |fields| == |m|
    ensures MergeSlots(fields, slots, m, 0) == slots
  {
    hide MergeSlots, MergeSlot, DefaultSlot;
  }

  /** Decoding what was encoded, into a fresh message, restores the message up to the contents of absent
      fields; it is refused exactly when the message is not within its arrays. */
  lemma {:induction false} FieldsRead(fields: seq<Field>, slots: seq<Slot>)
    requires DescriptorOk(fields) && Typed(fields, slots) && |EncodeFields(fields, slots)| < TWO_32
    ensures Decode(fields, EncodeFields(fields, slots)) == if AllWithin(fields, slots) then Some(NormSlots(fields, slots)) else None
  {
    hide DecodeFields, MergeSlots, NormSlots, EncodeFrom, DefaultSlots, FitsSlots, AllWithin, AllSeen, DescriptorOk, TypedSlot;
    var input := EncodeFields(fields, slots);
    assert input + [] == input;
    MergeReads(fields, DefaultSlots(fields), slots, {}, []);
    FreshMerge(fields, slots);
    AllPresent(fields, slots);
    NothingLeft(fields, NormSlots(fields, slots), {} + PresentFrom(fields, slots, 0));
  }

  /** Two encodings one after the other decode to the second message merged into the first. */
  lemma {:induction false} ConcatenationMerges(fields: seq<Field>, a: seq<Slot>, b: seq<Slot>)
    requires DescriptorOk(fields) && Typed(fields, a) && Typed(fields, b)
    requires |EncodeFields(fields, a)| < TWO_32 && |EncodeFields(fields, b)| < TWO_32
    ensures Decode(fields, EncodeFields(fields, a) + EncodeFields(fields, b))
         == if AllWithin(fields, a) && FitsSlots(fields, NormSlots(fields, a), b, 0)
            then Some(MergeSlots(fields, NormSlots(fields, a), b, |fields|)) else None
  {
    hide DecodeFields, MergeSlots, NormSlots, EncodeFrom, DefaultSlots, FitsSlots, AllWithin, AllSeen, DescriptorOk, TypedSlot;
    var second := EncodeFields(fields, b);
    assert second + [] == second;
    MergeReads(fields, DefaultSlots(fields), a, {}, second);
    FreshMerge(fields, a);
    var seen := {} + PresentFrom(fields, a, 0);
    MergeReads(fields, NormSlots(fields, a), b, seen, []);
    AllPresent(fields, b);
    NothingLeft(fields, MergeSlots(fields, NormSlots(fields, a), b, |fields|), seen + PresentFrom(fields, b, 0));
  }

  /** The encoder on a buffer of `max` bytes, then the decoder on what it wrote. */
  method EncodeThenDecode(fields: seq<Field>, slots: seq<Slot>, max: nat) returns (r: Option<seq<Slot>>)
    requires DescriptorOk(fields) && Typed(fields, slots) && |EncodeFields(fields, slots)| < TWO_32
    ensures r == if AllWithin(fields, slots) && |EncodeFields(fields, slots)| <= max then Some(NormSlots(fields, slots)) else None
  {
    hide DescriptorOk, Typed, AllWithin, EncodeFields, NormSlots, Decode, DecodeFields, DefaultSlots;
    var bytes := NanopbEncode.EncodeToBuffer(fields, slots, max);
    if bytes.None? {
      return None;
    }
    FieldsRead(fields, slots);
    r := NanopbReader.DecodeBuffer(fields, bytes.value);
  }
}
