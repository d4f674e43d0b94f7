/** The encoder as it runs (pb_encode.c): output streams that write or only count, submessages and packed
    arrays measured in a first pass and written in a second. */
module NanopbEncode {
  import opened Keys
  import opened Coding
  import opened Nanopb

  /** What an output stream has done: the bytes its callback was given, and its count of bytes. */
  datatype Output = Output(out: Bytes, written: nat)

  /** From `a` to `b`, a stream was given the encoding `enc`. It fails exactly when the message is not
      within its arrays or the encoding does not fit, and even then all that has been written is a prefix
      of the encoding. A stream that does not write counts the bytes of the encoding. */
  ghost predicate Emits(writes: bool, max: nat, a: Output, b: Output, enc: Bytes, within: bool, ok: bool) {
    && (ok <==> within && (writes ==> a.written + |enc| <= max))
    && (ok ==> b == Output(if writes then a.out + enc else a.out, a.written + |enc|))
    && a.written <= b.written
    && (writes ==> b.written <= max && a.out <= b.out <= a.out + enc && b.written - a.written == |b.out| - |a.out|)
    && (!writes ==> b.out == a.out)
  }

  ghost predicate Fits(writes: bool, max: nat, a: Output) {
    writes ==> a.written <= max
  }

  lemma EmitsNothing(writes: bool, max: nat, a: Output)
    requires Fits(writes, max, a)
    ensures Emits(writes, max, a, a, [], true, true)
  {
    assert a.out + [] == a.out;
  }

  /** Nothing at all is written of a message that is refused at once. */
  lemma EmitsRefused(writes: bool, max: nat, a: Output, enc: Bytes)
    requires Fits(writes, max, a)
    ensures Emits(writes, max, a, a, enc, false, false)
  {
  }

  lemma EmitsThen(writes: bool, max: nat, a: Output, b: Output, c: Output, enc1: Bytes, enc2: Bytes, within1: bool, within2: bool,
                  ok: bool)
    requires Emits(writes, max, a, b, enc1, within1, true) && Emits(writes, max, b, c, enc2, within2, ok)
    ensures Emits(writes, max, a, c, enc1 + enc2, within1 && within2, ok)
  {
    assert a.out + (enc1 + enc2) == a.out + enc1 + enc2;
  }

  /** A failure part of the way is a failure of the whole. */
  lemma EmitsFails(writes: bool, max: nat, a: Output, c: Output, b: Output, done: Bytes, step: Bytes, rest: Bytes, within1: bool,
                   within: bool)
    requires Emits(writes, max, a, c, done, true, true) && Emits(writes, max, c, b, step, within1, false) && (within ==> within1)
    ensures Emits(writes, max, a, b, done + step + rest, within, false)
  {
    assert a.out + (done + step + rest) == a.out + done + step + rest;
  }

  /** The same at the start. */
  lemma EmitsFailsFirst(writes: bool, max: nat, a: Output, b: Output, step: Bytes, rest: Bytes, within1: bool, within: bool)
    requires Emits(writes, max, a, b, step, within1, false) && (within ==> within1)
    ensures Emits(writes, max, a, b, step + rest, within, false)
  {
    assert a.out + (step + rest) == a.out + step + rest;
  }

  /** The pass that only counts finds the size exactly, and refuses exactly the messages that are not
      within their arrays. */
  lemma SizingCounts(max: nat, b: Output, body: Bytes, within: bool, ok: bool)
    requires Emits(false, max, Output([], 0), b, body, within, ok)
    ensures ok == within && (ok ==> b.written == |body|)
  {
  }

  lemma NoRoom(max: nat, c: Output, body: Bytes)
    requires c.written <= max && c.written + |body| > max
    ensures Emits(true, max, c, c, body, true, false)
  {
  }

  /** A substream with room for just the body writes just the body. */
  lemma SubstreamEmits(max: nat, c: Output, b: Output, body: Bytes, ok: bool)
    requires c.written + |body| <= max && Emits(true, |body|, Output(c.out, 0), b, body, true, ok)
    ensures ok && b.written == |body| && Emits(true, max, c, Output(b.out, c.written + b.written), body, true, true)
  {
  }

  lemma FixedBytes4(v: nat)
    requires v < TWO_32
    ensures Fixed(v, 4) == [v % 256, v / 0x100 % 256, v / 0x1_0000 % 256, v / 0x100_0000 % 256]
  {
    FixedBytesAt(v, 4);
    assert v / 0x100_0000 % 256 == v / 0x100_0000;
  }

  /** Four bytes at a time. */
  lemma FixedBytesAt(v: nat, n: nat)
    requires n >= 4
    ensures Fixed(v, n) == [v % 256, v / 0x100 % 256, v / 0x1_0000 % 256, v / 0x100_0000 % 256] + Fixed(v / TWO_32, n - 4)
  {
    hide Fixed;
    FixedStep(v, n);
    FixedStep(v / 0x100, n - 1);
    assert v / 0x100 / 256 == v / 0x1_0000;
    FixedStep(v / 0x1_0000, n - 2);
    assert v / 0x1_0000 / 256 == v / 0x100_0000;
    FixedStep(v / 0x100_0000, n - 3);
    assert v / 0x100_0000 / 256 == v / TWO_32;
  }

  lemma FixedStep(v: nat, n: nat)
    requires n > 0
    ensures Fixed(v, n) == [v % 256] + Fixed(v / 256, n - 1)
  {
  }

  lemma FixedBytes8(v: nat)
    requires v < TWO_64
    ensures Fixed(v, 8) == [v % 256, v / 0x100 % 256, v / 0x1_0000 % 256, v / 0x100_0000 % 256,
                            v / 0x1_0000_0000 % 256, v / 0x100_0000_0000 % 256, v / 0x1_0000_0000_0000 % 256,
                            v / 0x100_0000_0000_0000 % 256]
  {
    hide Fixed;
    FixedBytesAt(v, 8);
    var w := v / TWO_32;
    FixedBytes4(w);
    assert w / 0x100 == v / 0x100_0000_0000;
    assert w / 0x1_0000 == v / 0x1_0000_0000_0000;
    assert w / 0x100_0000 == v / 0x100_0000_0000_0000;
  }

  lemma ItemsSplit(t: LType, items: seq<Value>, i: nat)
    requires i < |items| && forall k :: 0 <= k < |items| ==> TypedValue(t, items[k])
    ensures EncodeItems(t, items[i..]) == EncodeValue(t, items[i]) + EncodeItems(t, items[i + 1..])
  {
    hide EncodeValue, TypedValue;
    assert items[i..][1..] == items[i + 1..];
  }

  lemma EachSplit(tag: nat, t: LType, items: seq<Value>, i: nat)
    requires i < |items| && forall k :: 0 <= k < |items| ==> TypedValue(t, items[k])
    ensures EncodeEach(tag, t, items[i..])
         == TagBytes(tag, WireType(t)) + EncodeValue(t, items[i]) + EncodeEach(tag, t, items[i + 1..])
  {
    hide EncodeValue, TypedValue, TagBytes, WireType;
    assert items[i..][1..] == items[i + 1..];
  }

  /** What the size of a packed array of numbers of four or eight bytes is known to be. */
  lemma {:induction false} FixedItemsSize(t: LType, items: seq<Value>)
    requires (t.Fixed32T? || t.Fixed64T?) && forall k :: 0 <= k < |items| ==> TypedValue(t, items[k])
    ensures |EncodeItems(t, items)| == (if t.Fixed32T? then 4 else 8) * |items|
  {
    if items != [] {
      FixedItemsSize(t, items[1..]);
    }
  }

  predicate ItemsWithin(t: LType, items: seq<Value>) {
    forall k :: 0 <= k < |items| ==> ValueWithin(t, items[k])
  }

  lemma NumberWithin(t: LType, v: Value)
    requires Packable(t)
    ensures ValueWithin(t, v)
  {
  }

  lemma NumbersWithin(t: LType, items: seq<Value>)
    requires Packable(t)
    ensures ItemsWithin(t, items)
  {
  }

  lemma NoItems(t: LType)
    ensures EncodeItems(t, []) == []
  {
  }

  lemma NoEach(tag: nat, t: LType)
    ensures EncodeEach(tag, t, []) == []
  {
  }

  lemma FourParts(a: Bytes, b: Bytes, c: Bytes, d: Bytes)
    ensures a + (b + c + d) == a + b + (c + d) == a + b + c + d
  {
  }

  lemma DataWithin(writes: bool, max: nat, a: Output, b: Output, enc: Bytes, within: bool)
    requires Emits(writes, max, a, b, enc, within, true)
    ensures within && Emits(writes, max, a, b, enc, true, true)
  {
  }

  lemma FromSplit(fields: seq<Field>, slots: seq<Slot>, k: nat)
    requires Typed(fields, slots) && k < |fields|
    ensures EncodeFrom(fields, slots, k) == EncodeSlot(fields[k], slots[k]) + EncodeFrom(fields, slots, k + 1)
  {
    hide EncodeSlot;
  }

  lemma FromNothing(fields: seq<Field>, slots: seq<Slot>)
    requires Typed(fields, slots)
    ensures EncodeFrom(fields, slots, |fields|) == []
  {
  }

  /** The digits written, `v` being what is left; after the last digit, its top bit is still set. */
  ghost predicate VarintSoFar(digits: Bytes, v: nat, value: nat) {
    if v > 0 then digits + Varint(v) == Varint(value)
    else digits != [] && digits[|digits| - 1] >= 128 && digits[..|digits| - 1] + [digits[|digits| - 1] - 128] == Varint(value)
  }

  lemma VarintDigit(digits: Bytes, v: nat, value: Word64)
    requires v > 0 && VarintSoFar(digits, v, value)
    ensures |digits| < 10 && VarintSoFar(digits + [v % 128 + 128], v / 128, value)
  {
    hide Varint;
    Varint64RoundTrip(value, []);
    var more := digits + [v % 128 + 128];
    if v < 128 {
      VarintByte(v);
      assert more[..|digits|] == digits;
    } else {
      VarintStep(v);
      assert more + Varint(v / 128) == digits + ([v % 128 + 128] + Varint(v / 128));
    }
  }

  class OStream {
    const writes: bool
    const maxSize: nat
    var out: Bytes
    var bytesWritten: nat

    function State(): Output
      reads this
    {
      Output(out, bytesWritten)
    }

    ghost predicate Valid()
      reads this
    {
      Fits(writes, maxSize, State())
    }

    /** A stream that only counts. */
    constructor Sizing()
      ensures !writes && State() == Output([], 0) && Valid()
    {
      writes, maxSize, out, bytesWritten := false, 0, [], 0;
    }

    /** A stream that goes on after what has been written already, with room for `max` bytes. */
    constructor Writing(out: Bytes, max: nat)
      ensures writes && maxSize == max && State() == Output(out, 0) && Valid()
    {
      this.writes, maxSize, this.out, bytesWritten := true, max, out, 0;
    }

    /** `pb_write`. A stream that only counts does not look at the bytes. */
    method Write(buf: Bytes, count: nat, ghost enc: Bytes) returns (ok: bool)
      requires Valid() && count == |enc| && (writes ==> buf == enc)
      modifies this
      ensures Emits(writes, maxSize, old(State()), State(), enc, true, ok) && Valid()
      ensures !ok ==> State() == old(State())
    {
      if count > 0 && writes {
        if bytesWritten + count > maxSize {
          return false;
        }
        out := out + buf;
      }
      bytesWritten := bytesWritten + count;
      ok := true;
    }

    method EncodeVarint(value: Word64) returns (ok: bool)
      requires Valid()
      modifies this
      ensures Emits(writes, maxSize, old(State()), State(), Varint(value), true, ok) && Valid()
    {
      hide Varint, Emits;
      if value <= 0x7F {
        VarintByte(value);
        ok := Write([value], 1, [value]);
        return;
      }
      var buffer := VarintBuffer(value);
      ok := Write(buffer, |buffer|, buffer);
    }

    /** Seven bits a byte with the top bit set; that of the last byte is cleared when it is known. */
    static method VarintBuffer(value: Word64) returns (r: Bytes)
      requires value > 0x7F
      ensures r == Varint(value)
    {
      hide Varint;
      var buffer := new Byte[10];
      var i: nat, v: nat := 0, value;
      assert buffer[..0] == [];
      while v > 0
        invariant i <= 10 && VarintSoFar(buffer[..i], v, value)
        decreases v
      {
        VarintDigit(buffer[..i], v, value);
        ghost var before := buffer[..i];
        buffer[i] := v % 128 + 128;
        assert buffer[..i + 1] == before + [v % 128 + 128];
        v := v / 128;
        i := i + 1;
      }
      buffer[i - 1] := buffer[i - 1] - 128;
      r := buffer[..i];
      assert r[..i - 1] == buffer[..i - 1];
    }

    method EncodeSvarint(value: int) returns (ok: bool)
      requires Valid() && -0x1_0000_0000_0000_0000 <= 2 * value < 0x1_0000_0000_0000_0000
      modifies this
      ensures Emits(writes, maxSize, old(State()), State(), Varint(ZigZag(value)), true, ok) && Valid()
    {
      hide Emits, Varint;
      var zigzagged := if value < 0 then -(2 * value) - 1 else 2 * value;
      ok := EncodeVarint(zigzagged);
    }

    method EncodeFixed32(val: Word32) returns (ok: bool)
      requires Valid()
      modifies this
      ensures Emits(writes, maxSize, old(State()), State(), Fixed(val, 4), true, ok) && Valid()
    {
      hide Emits;
      var bytes := [val % 256, val / 0x100 % 256, val / 0x1_0000 % 256, val / 0x100_0000 % 256];
      FixedBytes4(val);
      ok := Write(bytes, 4, bytes);
    }

    method EncodeFixed64(val: Word64) returns (ok: bool)
      requires Valid()
      modifies this
      ensures Emits(writes, maxSize, old(State()), State(), Fixed(val, 8), true, ok) && Valid()
    {
      hide Emits, Fixed;
      var bytes := [val % 256, val / 0x100 % 256, val / 0x1_0000 % 256, val / 0x100_0000 % 256,
                    val / 0x1_0000_0000 % 256, val / 0x100_0000_0000 % 256, val / 0x1_0000_0000_0000 % 256,
                    val / 0x100_0000_0000_0000 % 256];
      FixedBytes8(val);
      ok := Write(bytes, 8, bytes);
    }

    method EncodeTag(wireType: nat, fieldNumber: nat) returns (ok: bool)
      requires Valid() && wireType < 8 && fieldNumber < TWO_32
      modifies this
      ensures Emits(writes, maxSize, old(State()), State(), TagBytes(fieldNumber, wireType), true, ok) && Valid()
    {
      hide Emits;
      ok := EncodeVarint(fieldNumber * 8 + wireType);
    }

    method EncodeTagForField(f: Field) returns (ok: bool)
      requires Valid() && FieldOk(f)
      modifies this
      ensures Emits(writes, maxSize, old(State()), State(), TagBytes(f.tag, WireType(f.ltype)), true, ok) && Valid()
    {
      hide Emits, TagBytes;
      var wireType;
      match f.ltype {
        case Fixed32T => wireType := WT_32BIT;
        case Fixed64T => wireType := WT_64BIT;
        case BytesT(_) => wireType := WT_STRING;
        case StringT(_) => wireType := WT_STRING;
        case FixedBytesT(_) => wireType := WT_STRING;
        case MessageT(_) => wireType := WT_STRING;
        case _ => wireType := WT_VARINT;
      }
      ok := EncodeTag(wireType, f.tag);
    }

    method EncodeString(b: Bytes) returns (ok: bool)
      requires Valid() && |b| < TWO_64
      modifies this
      ensures Emits(writes, maxSize, old(State()), State(), Varint(|b|) + b, true, ok) && Valid()
    {
      hide Emits, Varint;
      ghost var a := State();
      ok := EncodeVarint(|b|);
      if !ok {
        EmitsFailsFirst(writes, maxSize, a, State(), Varint(|b|), b, true, true);
        return;
      }
      ghost var c := State();
      ok := Write(b, |b|, b);
      EmitsThen(writes, maxSize, a, c, State(), Varint(|b|), b, true, true, ok);
    }

    /** The submessage is measured on a stream that only counts, and then written through a substream that
        has room for just so many bytes. */
    method EncodeSubmessage(fields: seq<Field>, slots: seq<Slot>) returns (ok: bool)
      requires Valid() && DescriptorOk(fields) && Typed(fields, slots) && |EncodeFields(fields, slots)| < TWO_64
      modifies this
      ensures var body := EncodeFields(fields, slots);
              Emits(writes, maxSize, old(State()), State(), Varint(|body|) + body, AllWithin(fields, slots), ok)
      ensures Valid()
      decreases fields, |fields| + 2
    {
      hide Emits, Varint, EncodeFields, AllWithin, Typed, DescriptorOk;
      ghost var body := EncodeFields(fields, slots);
      ghost var within := AllWithin(fields, slots);
      ghost var a := State();
      var substream := new OStream.Sizing();
      ok := substream.Encode(fields, slots);
      SizingCounts(substream.maxSize, substream.State(), body, within, ok);
      if !ok {
        EmitsRefused(writes, maxSize, a, Varint(|body|) + body);
        return;
      }
      var size := substream.bytesWritten;
      ok := EncodeVarint(size);
      if !ok {
        EmitsFailsFirst(writes, maxSize, a, State(), Varint(|body|), body, true, true);
        return;
      }
      ghost var c := State();
      if !writes {
        ok := Write([], size, body);
        EmitsThen(writes, maxSize, a, c, State(), Varint(|body|), body, true, within, ok);
        return;
      }
      if bytesWritten + size > maxSize {
        NoRoom(maxSize, c, body);
        EmitsThen(writes, maxSize, a, c, c, Varint(|body|), body, true, true, false);
        return false;
      }
      substream := new OStream.Writing(out, size);
      ok := substream.Encode(fields, slots);
      bytesWritten, out := bytesWritten + substream.bytesWritten, substream.out;
      SubstreamEmits(maxSize, c, substream.State(), body, ok);
      EmitsThen(writes, maxSize, a, c, State(), Varint(|body|), body, true, true, true);
      if substream.bytesWritten != size {
        assert false;
      }
    }

    /** One value by the encoder of its type. */
    method EncodeData(t: LType, v: Value) returns (ok: bool)
      requires Valid() && SizesOk(t) && TypedValue(t, v) && |EncodeValue(t, v)| < TWO_64
      modifies this
      ensures Emits(writes, maxSize, old(State()), State(), EncodeValue(t, v), ValueWithin(t, v), ok) && Valid()
      decreases t, 0
    {
      hide Emits, Varint, Fixed, EncodeFields, Typed, DescriptorOk;
      match t {
        case BoolT => ok := EncodeVarint(v.i);
        case VarintT(size) => ok := EncodeVarint(v.i % TWO_64);
        case UvarintT(size) => ok := EncodeVarint(v.i);
        case SvarintT(size) => ok := EncodeSvarint(v.i);
        case Fixed32T => ok := EncodeFixed32(v.i);
        case Fixed64T => ok := EncodeFixed64(v.i);
        case BytesT(max) =>
          if |v.b| > max {
            EmitsRefused(writes, maxSize, State(), EncodeValue(t, v));
            return false;
          }
          ok := EncodeString(v.b);
        case StringT(_) => ok := EncodeString(v.b);
        case FixedBytesT(_) => ok := EncodeString(v.b);
        case MessageT(fields) => ok := EncodeSubmessage(fields, v.slots);
      }
    }

    /** Items one after another. */
    method EncodeRun(t: LType, items: seq<Value>) returns (ok: bool)
      requires Valid() && SizesOk(t) && Packable(t) && (forall k :: 0 <= k < |items| ==> TypedValue(t, items[k]))
      requires |EncodeItems(t, items)| < TWO_64
      modifies this
      ensures Emits(writes, maxSize, old(State()), State(), EncodeItems(t, items), true, ok) && Valid()
      decreases t, 1
    {
      hide Emits, EncodeValue, EncodeItems, TypedValue, SizesOk, Fits;
      ghost var a := State();
      ghost var whole, done := EncodeItems(t, items), [];
      EmitsNothing(writes, maxSize, a);
      var i := 0;
      assert items[i..] == items;
      while i < |items|
        invariant i <= |items| && Valid()
        invariant Emits(writes, maxSize, a, State(), done, true, true) && done + EncodeItems(t, items[i..]) == whole
      {
        ghost var c := State();
        ghost var step, rest := EncodeValue(t, items[i]), EncodeItems(t, items[i + 1..]);
        ItemsSplit(t, items, i);
        assert done + step + rest == whole;
        NumberWithin(t, items[i]);
        ok := EncodeData(t, items[i]);
        if !ok {
          EmitsFails(writes, maxSize, a, c, State(), done, step, rest, true, true);
          return;
        }
        EmitsThen(writes, maxSize, a, c, State(), done, step, true, true, true);
        done := done + step;
        i := i + 1;
      }
      NoItems(t);
      assert done == whole;
      ok := true;
    }

    /** A packed array: the tag, the size of the items, the items. */
    method EncodePacked(f: Field, items: seq<Value>) returns (ok: bool)
      requires Valid() && FieldOk(f) && Packable(f.ltype) && (forall k :: 0 <= k < |items| ==> TypedValue(f.ltype, items[k]))
      requires |EncodeItems(f.ltype, items)| < TWO_64
      modifies this
      ensures var body := EncodeItems(f.ltype, items);
              Emits(writes, maxSize, old(State()), State(), TagBytes(f.tag, WT_STRING) + Varint(|body|) + body, true, ok)
      ensures Valid()
      decreases f, 0
    {
      hide Emits, EncodeValue, EncodeItems, TypedValue, SizesOk, TagBytes, Varint, Fits;
      ghost var a := State();
      ghost var body := EncodeItems(f.ltype, items);
      ghost var tag, length := TagBytes(f.tag, WT_STRING), Varint(|body|);
      ok := EncodeTag(WT_STRING, f.tag);
      if !ok {
        EmitsFailsFirst(writes, maxSize, a, State(), tag, length + body, true, true);
        assert tag + (length + body) == tag + length + body;
        return;
      }
      ghost var c := State();
      var size := ItemsSize(f.ltype, items);
      ok := EncodeVarint(size);
      if !ok {
        EmitsFails(writes, maxSize, a, c, State(), tag, length, body, true, true);
        return;
      }
      EmitsThen(writes, maxSize, a, c, State(), tag, length, true, true, true);
      c := State();
      if !writes {
        ok := Write([], size, body);
      } else {
        ok := EncodeRun(f.ltype, items);
      }
      EmitsThen(writes, maxSize, a, c, State(), tag + length, body, true, true, ok);
    }

    /** The total size of a packed array, by arithmetic or on a stream that only counts. */
    static method ItemsSize(t: LType, items: seq<Value>) returns (size: nat)
      requires SizesOk(t) && Packable(t) && (forall k :: 0 <= k < |items| ==> TypedValue(t, items[k]))
      requires |EncodeItems(t, items)| < TWO_64
      ensures size == |EncodeItems(t, items)|
      decreases t, 2
    {
      hide Emits, EncodeValue, EncodeItems, TypedValue, SizesOk, Packable;
      if t == Fixed32T {
        FixedItemsSize(t, items);
        return 4 * |items|;
      }
      if t == Fixed64T {
        FixedItemsSize(t, items);
        return 8 * |items|;
      }
      var sizeStream := new OStream.Sizing();
      var ok := sizeStream.EncodeRun(t, items);
      SizingCounts(sizeStream.maxSize, sizeStream.State(), EncodeItems(t, items), true, ok);
      size := sizeStream.bytesWritten;
    }

    /** Items that cannot be packed get a tag each. */
    method EncodeTagged(f: Field, items: seq<Value>) returns (ok: bool)
      requires Valid() && FieldOk(f) && (forall k :: 0 <= k < |items| ==> TypedValue(f.ltype, items[k]))
      requires |EncodeEach(f.tag, f.ltype, items)| < TWO_64
      modifies this
      ensures Emits(writes, maxSize, old(State()), State(), EncodeEach(f.tag, f.ltype, items), ItemsWithin(f.ltype, items), ok)
      ensures Valid()
      decreases f, 0
    {
      hide Emits, EncodeValue, EncodeEach, TypedValue, ValueWithin, SizesOk, TagBytes, WireType, Fits;
      var t := f.ltype;
      ghost var a := State();
      ghost var whole, done, within := EncodeEach(f.tag, t, items), [], ItemsWithin(t, items);
      EmitsNothing(writes, maxSize, a);
      var i := 0;
      assert items[i..] == items;
      while i < |items|
        invariant i <= |items| && Valid()
        invariant forall k :: 0 <= k < i ==> ValueWithin(t, items[k])
        invariant Emits(writes, maxSize, a, State(), done, true, true) && done + EncodeEach(f.tag, t, items[i..]) == whole
      {
        ghost var tag, step, rest := TagBytes(f.tag, WireType(t)), EncodeValue(t, items[i]), EncodeEach(f.tag, t, items[i + 1..]);
        EachSplit(f.tag, t, items, i);
        FourParts(done, tag, step, rest);
        ghost var c := State();
        ok := EncodeTagForField(f);
        if !ok {
          EmitsFails(writes, maxSize, a, c, State(), done, tag, step + rest, true, within);
          return;
        }
        EmitsThen(writes, maxSize, a, c, State(), done, tag, true, true, true);
        c := State();
        ok := EncodeData(t, items[i]);
        if !ok {
          EmitsFails(writes, maxSize, a, c, State(), done + tag, step, rest, ValueWithin(t, items[i]), within);
          return;
        }
        DataWithin(writes, maxSize, c, State(), step, ValueWithin(t, items[i]));
        EmitsThen(writes, maxSize, a, c, State(), done + tag, step, true, true, true);
        done := done + tag + step;
        i := i + 1;
      }
      NoEach(f.tag, t);
      assert done == whole;
      ok := true;
    }

    /** A repeated field: nothing when it is empty, and no more items than its array has room for. */
    method EncodeArray(f: Field, items: seq<Value>) returns (ok: bool)
      requires Valid() && FieldOk(f) && f.htype.Repeated? && TypedSlot(f, Many(items)) && |EncodeSlot(f, Many(items))| < TWO_64
      modifies this
      ensures Emits(writes, maxSize, old(State()), State(), EncodeSlot(f, Many(items)), SlotWithin(f, Many(items)), ok) && Valid()
      decreases f, 1
    {
      hide Emits, EncodeValue, EncodeItems, EncodeEach, TypedValue, SizesOk, ValueWithin, TagBytes, Varint;
      if |items| == 0 {
        EmitsNothing(writes, maxSize, State());
        return true;
      }
      if |items| > f.htype.max {
        EmitsRefused(writes, maxSize, State(), EncodeSlot(f, Many(items)));
        return false;
      }
      if Packable(f.ltype) {
        NumbersWithin(f.ltype, items);
        ok := EncodePacked(f, items);
      } else {
        ok := EncodeTagged(f, items);
      }
    }

    /** One field, when it is present. */
    method EncodeBasicField(f: Field, s: Slot) returns (ok: bool)
      requires Valid() && FieldOk(f) && TypedSlot(f, s) && |EncodeSlot(f, s)| < TWO_64
      modifies this
      ensures Emits(writes, maxSize, old(State()), State(), EncodeSlot(f, s), SlotWithin(f, s), ok) && Valid()
      decreases f, 2
    {
      hide Emits, EncodeValue, EncodeItems, EncodeEach, TypedValue, SizesOk, ValueWithin, TagBytes, Varint, IsZero;
      var has;
      match f.htype {
        case Repeated(_) =>
          ok := EncodeArray(f, s.items);
          return;
        case Required => has := true;
        case Singular => has := !IsZero(f.ltype, s.value);
        case Optional => has := s.has;
        case Oneof(_) => has := s.has;
      }
      if !has {
        EmitsNothing(writes, maxSize, State());
        return true;
      }
      ghost var a := State();
      ghost var tag, step := TagBytes(f.tag, WireType(f.ltype)), EncodeValue(f.ltype, s.value);
      ok := EncodeTagForField(f);
      if !ok {
        EmitsFailsFirst(writes, maxSize, a, State(), tag, step, true, SlotWithin(f, s));
        return;
      }
      ghost var c := State();
      ok := EncodeData(f.ltype, s.value);
      EmitsThen(writes, maxSize, a, c, State(), tag, step, true, ValueWithin(f.ltype, s.value), ok);
    }

    /** `pb_encode`: the fields in descriptor order. */
    method Encode(fields: seq<Field>, slots: seq<Slot>) returns (ok: bool)
      requires Valid() && DescriptorOk(fields) && Typed(fields, slots) && |EncodeFields(fields, slots)| < TWO_64
      modifies this
      ensures Emits(writes, maxSize, old(State()), State(), EncodeFields(fields, slots), AllWithin(fields, slots), ok) && Valid()
      decreases fields, |fields| + 1
    {
      hide Emits, EncodeSlot, TypedSlot, FieldOk, SlotWithin, EncodeFrom, Fits;
      ghost var a := State();
      ghost var whole, done, within := EncodeFields(fields, slots), [], AllWithin(fields, slots);
      EmitsNothing(writes, maxSize, a);
      var i := 0;
      while i < |fields|
        invariant i <= |fields| && Valid()
        invariant forall k :: 0 <= k < i ==> SlotWithin(fields[k], slots[k])
        invariant Emits(writes, maxSize, a, State(), done, true, true) && done + EncodeFrom(fields, slots, i) == whole
      {
        assert FieldOk(fields[i]) && TypedSlot(fields[i], slots[i]);
        ghost var step, rest := EncodeSlot(fields[i], slots[i]), EncodeFrom(fields, slots, i + 1);
        FromSplit(fields, slots, i);
        assert done + step + rest == whole;
        ghost var c := State();
        ok := EncodeBasicField(fields[i], slots[i]);
        if !ok {
          EmitsFails(writes, maxSize, a, c, State(), done, step, rest, SlotWithin(fields[i], slots[i]), within);
          return;
        }
        DataWithin(writes, maxSize, c, State(), step, SlotWithin(fields[i], slots[i]));
        EmitsThen(writes, maxSize, a, c, State(), done, step, true, true, true);
        done := done + step;
        i := i + 1;
      }
      FromNothing(fields, slots);
      assert done == whole;
      ok := true;
    }

    /** `pb_encode_nullterminated` */
    method EncodeNullTerminated(fields: seq<Field>, slots: seq<Slot>) returns (ok: bool)
      requires Valid() && DescriptorOk(fields) && Typed(fields, slots) && |EncodeFields(fields, slots)| < TWO_64
      modifies this
      ensures Emits(writes, maxSize, old(State()), State(), EncodeFields(fields, slots) + [0], AllWithin(fields, slots), ok) && Valid()
    {
      hide Emits, EncodeFields, AllWithin, DescriptorOk, Typed;
      ghost var a := State();
      ghost var body, within := EncodeFields(fields, slots), AllWithin(fields, slots);
      ok := Encode(fields, slots);
      if !ok {
        EmitsFailsFirst(writes, maxSize, a, State(), body, [0], within, within);
        return;
      }
      ghost var c := State();
      DataWithin(writes, maxSize, a, c, body, within);
      ok := Write([0], 1, [0]);
      EmitsThen(writes, maxSize, a, c, State(), body, [0], within, true, ok);
    }
  }

  /** `pb_get_encoded_size`: the size a message will have, by a pass that only counts. */
  method GetEncodedSize(fields: seq<Field>, slots: seq<Slot>) returns (r: Option<nat>)
    requires DescriptorOk(fields) && Typed(fields, slots) && |EncodeFields(fields, slots)| < TWO_64
    ensures r == if AllWithin(fields, slots) then Some(|EncodeFields(fields, slots)|) else None
  {
    hide Emits, EncodeFields, AllWithin, DescriptorOk, Typed;
    var stream := new OStream.Sizing();
    var ok := stream.Encode(fields, slots);
    SizingCounts(stream.maxSize, stream.State(), EncodeFields(fields, slots), AllWithin(fields, slots), ok);
    r := if ok then Some(stream.bytesWritten) else None;
  }

  /** A message encoded into a buffer of `max` bytes: it succeeds exactly when the message is within its
      arrays and its encoding within the buffer, and then the buffer starts with the encoding. */
  method EncodeToBuffer(fields: seq<Field>, slots: seq<Slot>, max: nat) returns (r: Option<Bytes>)
    requires DescriptorOk(fields) && Typed(fields, slots) && |EncodeFields(fields, slots)| < TWO_64
    ensures r.Some? <==> AllWithin(fields, slots) && |EncodeFields(fields, slots)| <= max
    ensures r.Some? ==> r.value == EncodeFields(fields, slots)
  {
    hide EncodeFields, AllWithin, DescriptorOk, Typed;
    var stream := new OStream.Writing([], max);
    var ok := stream.Encode(fields, slots);
    assert [] + EncodeFields(fields, slots) == EncodeFields(fields, slots);
    r := if ok then Some(stream.out) else None;
  }
}
