/** Messages by descriptor, as nanopb stores and encodes them (pb.h, pb_encode.c, pb_decode.c, pb_common.c):
    statically allocated fields, nested messages, repeated and packed fields, oneofs. */
module Nanopb {
  import opened Keys
  import opened Coding

  /** How a field's data is stored and encoded. Sizes are bytes; `max` is the room for the contents. */
  datatype LType =
    | BoolT
    | VarintT(size: nat)
    | UvarintT(size: nat)
    | SvarintT(size: nat)
    | Fixed32T
    | Fixed64T
    | BytesT(max: nat)
    | StringT(max: nat)
    | FixedBytesT(size: nat)
    | MessageT(fields: seq<Field>)

  /** `Optional` has a presence flag beside its data, `Singular` (of proto3) is present when it is not zero. */
  datatype HType = Required | Optional | Singular | Repeated(max: nat) | Oneof(group: nat)

  datatype Field = Field(tag: nat, ltype: LType, htype: HType)

  datatype Value = Int(i: int) | Blob(b: Bytes) | Msg(slots: seq<Slot>)

  /** What a message structure holds for one field. */
  datatype Slot = One(has: bool, value: Value) | Many(items: seq<Value>)

  const MAX_REQUIRED_FIELDS: nat := 64

  const WT_VARINT: nat := 0
  const WT_64BIT: nat := 1
  const WT_STRING: nat := 2
  const WT_32BIT: nat := 5

  predicate Packable(t: LType) {
    t.BoolT? || t.VarintT? || t.UvarintT? || t.SvarintT? || t.Fixed32T? || t.Fixed64T?
  }

  /** Two to the number of bits of an integer of `size` bytes. */
  function Span(size: nat): (n: int)
    ensures n > 0
  {
    if size == 1 then 0x100 else if size == 2 then 0x1_0000 else if size == 4 then TWO_32 else TWO_64
  }

  predicate IntSize(size: nat) {
    size == 1 || size == 2 || size == 4 || size == 8
  }

  ghost predicate SizesOk(t: LType) {
    match t
    case VarintT(size) => IntSize(size)
    case UvarintT(size) => IntSize(size)
    case SvarintT(size) => IntSize(size)
    case MessageT(fields) => DescriptorOk(fields)
    case _ => true
  }

  ghost predicate FieldOk(f: Field) {
    0 < f.tag < 0x2000_0000 && SizesOk(f.ltype)
  }

  /** Distinct nonzero tags that fit with a wire type into 32 bits, at every depth. */
  ghost predicate DescriptorOk(fields: seq<Field>) {
    && (forall i :: 0 <= i < |fields| ==> FieldOk(fields[i]))
    && (forall i, j :: 0 <= i < j < |fields| ==> fields[i].tag != fields[j].tag)
  }

  /** The value is one that the field's memory can hold. */
  ghost predicate TypedValue(t: LType, v: Value) {
    match t
    case BoolT => v.Int? && 0 <= v.i <= 1
    case VarintT(size) => v.Int? && -Span(size) <= 2 * v.i < Span(size)
    case UvarintT(size) => v.Int? && 0 <= v.i < Span(size)
    case SvarintT(size) => v.Int? && -Span(size) <= 2 * v.i < Span(size)
    case Fixed32T => v.Int? && 0 <= v.i < TWO_32
    case Fixed64T => v.Int? && 0 <= v.i < TWO_64
    case BytesT(_) => v.Blob?
    case StringT(max) => v.Blob? && |v.b| < max && 0 !in v.b
    case FixedBytesT(size) => v.Blob? && |v.b| == size
    case MessageT(fields) => v.Msg? && Typed(fields, v.slots)
  }

  ghost predicate TypedSlot(f: Field, s: Slot) {
    match f.htype
    case Repeated(_) => s.Many? && forall k :: 0 <= k < |s.items| ==> TypedValue(f.ltype, s.items[k])
    case Required => s.One? && s.has && TypedValue(f.ltype, s.value)
    case Singular => s.One? && s.has && TypedValue(f.ltype, s.value)
    case _ => s.One? && TypedValue(f.ltype, s.value)
  }

  /** Every field's memory holds a value of its type, and of each oneof at most one field is the current one. */
  ghost predicate Typed(fields: seq<Field>, slots: seq<Slot>) {
    && |slots| == |fields|
    && (forall i :: 0 <= i < |fields| ==> TypedSlot(fields[i], slots[i]))
    && (forall i, j :: 0 <= i < j < |fields| && fields[i].htype.Oneof? && fields[j].htype == fields[i].htype ==>
          !(slots[i].has && slots[j].has))
  }

  /** Counts and byte strings stay within their arrays: what the encoder checks. */
  predicate ValueWithin(t: LType, v: Value) {
    match t
    case BytesT(max) => v.Blob? && |v.b| <= max
    case MessageT(fields) => v.Msg? && |v.slots| == |fields| && forall i :: 0 <= i < |fields| ==> SlotWithin(fields[i], v.slots[i])
    case _ => true
  }

  /** Only what is encoded is checked. */
  predicate SlotWithin(f: Field, s: Slot) {
    match f.htype
    case Repeated(max) => s.Many? && |s.items| <= max && forall k :: 0 <= k < |s.items| ==> ValueWithin(f.ltype, s.items[k])
    case Singular => s.One? && (IsZero(f.ltype, s.value) || ValueWithin(f.ltype, s.value))
    case Required => s.One? && ValueWithin(f.ltype, s.value)
    case _ => s.One? && (s.has ==> ValueWithin(f.ltype, s.value))
  }

  predicate AllWithin(fields: seq<Field>, slots: seq<Slot>) {
    |slots| == |fields| && forall i :: 0 <= i < |fields| ==> SlotWithin(fields[i], slots[i])
  }

  /** The check for a value that proto3 does not encode. */
  predicate IsZero(t: LType, v: Value) {
    match t
    case BytesT(_) => v.Blob? && v.b == []
    case StringT(_) => v.Blob? && v.b == []
    case FixedBytesT(size) => size == 0
    case MessageT(fields) => v.Msg? && |v.slots| == |fields| && forall i :: 0 <= i < |fields| ==> IsZeroSlot(fields[i], v.slots[i])
    case _ => v.Int? && v.i == 0
  }

  predicate IsZeroSlot(f: Field, s: Slot) {
    match f.htype
    case Required => false
    case Repeated(_) => s.Many? && s.items == []
    case Singular => s.One? && IsZero(f.ltype, s.value)
    case _ => s.One? && !s.has
  }

  function WireType(t: LType): nat {
    match t
    case Fixed32T => WT_32BIT
    case Fixed64T => WT_64BIT
    case BytesT(_) => WT_STRING
    case StringT(_) => WT_STRING
    case FixedBytesT(_) => WT_STRING
    case MessageT(_) => WT_STRING
    case _ => WT_VARINT
  }

  function TagBytes(tag: nat, wireType: nat): Bytes {
    Varint(tag * 8 + wireType)
  }

  /** A signed number in two's complement. */
  function Unsigned64(i: int): nat
    requires -0x1_0000_0000_0000_0000 <= 2 * i < 0x1_0000_0000_0000_0000
  {
    i % TWO_64
  }

  function ZigZag(i: int): nat {
    if i < 0 then -2 * i - 1 else 2 * i
  }

  function EncodeValue(t: LType, v: Value): Bytes
    requires TypedValue(t, v)
    decreases t, 0
  {
    match t
    case BoolT => Varint(v.i)
    case VarintT(_) => Varint(Unsigned64(v.i))
    case UvarintT(_) => Varint(v.i)
    case SvarintT(_) => Varint(ZigZag(v.i))
    case Fixed32T => Fixed(v.i, 4)
    case Fixed64T => Fixed(v.i, 8)
    case BytesT(_) => Varint(|v.b|) + v.b
    case StringT(_) => Varint(|v.b|) + v.b
    case FixedBytesT(_) => Varint(|v.b|) + v.b
    case MessageT(fields) => var body := EncodeFields(fields, v.slots); Varint(|body|) + body
  }

  /** Items one after another, as in a packed array. */
  function EncodeItems(t: LType, items: seq<Value>): Bytes
    requires forall k :: 0 <= k < |items| ==> TypedValue(t, items[k])
    decreases t, 1, |items|
  {
    if items == [] then [] else EncodeValue(t, items[0]) + EncodeItems(t, items[1..])
  }

  /** Items with a tag each. */
  function EncodeEach(tag: nat, t: LType, items: seq<Value>): Bytes
    requires forall k :: 0 <= k < |items| ==> TypedValue(t, items[k])
    decreases t, 1, |items|
  {
    if items == [] then [] else TagBytes(tag, WireType(t)) + EncodeValue(t, items[0]) + EncodeEach(tag, t, items[1..])
  }

  predicate Present(f: Field, s: Slot) {
    match f.htype
    case Required => true
    case Singular => s.One? && !IsZero(f.ltype, s.value)
    case Repeated(_) => s.Many? && s.items != []
    case _ => s.One? && s.has
  }

  function EncodeSlot(f: Field, s: Slot): Bytes
    requires TypedSlot(f, s)
  {
    if !Present(f, s) then []
    else if f.htype.Repeated? then
      if Packable(f.ltype) then
        var body := EncodeItems(f.ltype, s.items);
        TagBytes(f.tag, WT_STRING) + Varint(|body|) + body
      else EncodeEach(f.tag, f.ltype, s.items)
    else TagBytes(f.tag, WireType(f.ltype)) + EncodeValue(f.ltype, s.value)
  }

  /** The fields from number `k` on, in descriptor order. */
  function EncodeFrom(fields: seq<Field>, slots: seq<Slot>, k: nat): Bytes
    requires Typed(fields, slots) && k <= |fields|
    decreases fields, |fields| - k
  {
    if k == |fields| then [] else EncodeSlot(fields[k], slots[k]) + EncodeFrom(fields, slots, k + 1)
  }

  function EncodeFields(fields: seq<Field>, slots: seq<Slot>): Bytes
    requires Typed(fields, slots)
    decreases fields, |fields| + 1
  {
    EncodeFrom(fields, slots, 0)
  }

  function Zeros(n: nat): (r: Bytes)
    ensures |r| == n
  {
    if n == 0 then [] else [0] + Zeros(n - 1)
  }

  function DefaultValue(t: LType): Value {
    match t
    case BytesT(_) => Blob([])
    case StringT(_) => Blob([])
    case FixedBytesT(size) => Blob(Zeros(size))
    case MessageT(fields) => Msg(DefaultSlots(fields))
    case _ => Int(0)
  }

  function DefaultSlot(f: Field): Slot {
    match f.htype
    case Repeated(_) => Many([])
    case Required => One(true, DefaultValue(f.ltype))
    case Singular => One(true, DefaultValue(f.ltype))
    case _ => One(false, DefaultValue(f.ltype))
  }

  /** A freshly initialised message. */
  function DefaultSlots(fields: seq<Field>): (r: seq<Slot>)
    ensures |r| == |fields| && forall i :: 0 <= i < |fields| ==> r[i] == DefaultSlot(fields[i])
  {
    if fields == [] then [] else DefaultSlots(fields[..|fields| - 1]) + [DefaultSlot(fields[|fields| - 1])]
  }

  /** The message with the contents of absent fields forgotten. */
  ghost function NormValue(t: LType, v: Value): Value
    decreases t, 0
  {
    if t.MessageT? && v.Msg? && |v.slots| == |t.fields| then Msg(NormSlots(t.fields, v.slots)) else v
  }

  ghost function NormItems(t: LType, items: seq<Value>): (r: seq<Value>)
    ensures |r| == |items| && forall k :: 0 <= k < |items| ==> r[k] == NormValue(t, items[k])
    decreases t, 1, |items|
  {
    if items == [] then [] else NormItems(t, items[..|items| - 1]) + [NormValue(t, items[|items| - 1])]
  }

  ghost function NormSlot(f: Field, s: Slot): Slot {
    if s.Many? then Many(NormItems(f.ltype, s.items))
    else if Present(f, s) then One(true, NormValue(f.ltype, s.value))
    else DefaultSlot(f)
  }

  ghost function NormSlots(fields: seq<Field>, slots: seq<Slot>): (r: seq<Slot>)
    requires |slots| == |fields|
    ensures |r| == |fields| && forall i :: 0 <= i < |fields| ==> r[i] == NormSlot(fields[i], slots[i])
  {
    if fields == [] then []
    else NormSlots(fields[..|fields| - 1], slots[..|fields| - 1]) + [NormSlot(fields[|fields| - 1], slots[|fields| - 1])]
  }
}
