/** The decoder as it runs (pb_decode.c, pb_common.c): input streams and substreams, the field iterator, the
    bitmap of required fields. */
module NanopbReader {
  import opened Keys
  import opened Coding
  import opened Nanopb
  import opened NanopbDecode

  /** An input stream: what its callback still has, of which `bytesLeft` bytes may be read. */
  class IStream {
    var state: Bytes
    var bytesLeft: nat

    ghost predicate Valid()
      reads this
    {
      bytesLeft <= |state|
    }

    /** What may be read. */
    ghost function Input(): Bytes
      requires Valid()
      reads this
    {
      state[..bytesLeft]
    }

    /** What the callback has beyond the limit, for the stream that this is a substream of. */
    ghost function Beyond(): Bytes
      requires Valid()
      reads this
    {
      state[bytesLeft..]
    }

    constructor (state: Bytes, bytesLeft: nat)
      requires bytesLeft <= |state|
      ensures Valid() && Input() == state[..bytesLeft] && Beyond() == state[bytesLeft..]
    {
      this.state, this.bytesLeft := state, bytesLeft;
    }

    /** `pb_readbyte` */
    method ReadByte() returns (ok: bool, byte: Byte)
      requires Valid()
      modifies this
      ensures Valid() && Beyond() == old(Beyond())
      ensures ok <==> old(Input()) != []
      ensures ok ==> byte == old(Input())[0] && Input() == old(Input())[1..]
      ensures !ok ==> Input() == old(Input())
    {
      if bytesLeft == 0 {
        return false, 0;
      }
      byte, ok := state[0], true;
      state, bytesLeft := state[1..], bytesLeft - 1;
    }

    /** `pb_read`, also for bytes that are passed over */
    method Read(count: nat) returns (ok: bool, buf: Bytes)
      requires Valid()
      modifies this
      ensures Valid() && Beyond() == old(Beyond())
      ensures ok <==> TakeBytes(old(Input()), count).Parsed?
      ensures ok ==> TakeBytes(old(Input()), count) == Parsed(buf, Input())
    {
      if count == 0 {
        return true, [];
      }
      if bytesLeft < count {
        return false, [];
      }
      ghost var input := Input();
      buf, ok := state[..count], true;
      state, bytesLeft := state[count..], bytesLeft - count;
      assert input[..count] == buf && input[count..] == Input();
    }

    method DecodeVarint32() returns (ok: bool, dest: nat)
      requires Valid()
      modifies this
      ensures Valid() && Beyond() == old(Beyond())
      ensures ok <==> NanopbDecode.DecodeVarint32(old(Input())).Parsed?
      ensures ok ==> NanopbDecode.DecodeVarint32(old(Input())) == Parsed(dest, Input())
    {
      var byte;
      ok, byte := ReadByte();
      if !ok {
        return false, 0;
      }
      if byte < 0x80 {
        return true, byte;
      }
      ok, dest := DecodeLongVarint32(byte % 128);
    }

    /** The bytes after the first. */
    method DecodeLongVarint32(low: nat) returns (ok: bool, dest: nat)
      requires Valid()
      modifies this
      ensures Valid() && Beyond() == old(Beyond())
      ensures ok <==> Varint32Rest(old(Input()), low, 1).Parsed?
      ensures ok ==> Varint32Rest(old(Input()), low, 1) == Parsed(dest, Input())
    {
      hide Varint32Rest;
      var bitpos: nat, result: nat, byte: Byte := 7, low, 0;
      ghost var whole := Varint32Rest(Input(), low, 1);
      while true
        invariant Valid() && Beyond() == old(Beyond())
        invariant bitpos >= 7 && bitpos % 7 == 0 && whole == Varint32Rest(Input(), result, bitpos / 7)
        decreases |Input()|
      {
        ghost var before := Input();
        Varint32RestUnfolds(before, result, bitpos / 7);
        ok, byte := ReadByte();
        if !ok {
          return false, 0;
        }
        if bitpos >= 32 {
          var signExtension := if bitpos < 63 then 0xFF else 0x01;
          if byte % 128 != 0 && (result / 0x8000_0000 == 0 || byte != signExtension) {
            return false, 0;
          }
        } else {
          result := (result + byte % 128 * Power128(bitpos / 7)) % TWO_32;
        }
        bitpos := bitpos + 7;
        if byte < 0x80 {
          break;
        }
      }
      if bitpos == 35 && byte / 16 % 8 != 0 {
        return false, 0;
      }
      return true, result;
    }

    /** `pb_decode_varint` */
    method DecodeVarint() returns (ok: bool, dest: Word64)
      requires Valid()
      modifies this
      ensures Valid() && Beyond() == old(Beyond())
      ensures ok <==> GetVarint64(old(Input())).Parsed?
      ensures ok ==> GetVarint64(old(Input())) == Parsed(dest, Input())
    {
      hide ParseVarint, Power128, Scaled, Shifted;
      var bitpos: nat, result: Word64, byte: Byte := 0, 0, 0;
      ghost var d: nat, whole: nat := 0, 0;
      ghost var parsed := ParseVarint(Input(), 10);
      VarintStart(Input());
      while true
        invariant Valid() && Beyond() == old(Beyond())
        invariant d <= 10 && bitpos == 7 * d && result == whole % TWO_64
        invariant parsed == Shifted(ParseVarint(Input(), 10 - d), whole, Power128(d))
        decreases |Input()|
      {
        VarintRound(Input(), d, whole);
        if bitpos >= 64 {
          return false, 0;
        }
        ok, byte := ReadByte();
        if !ok {
          return false, 0;
        }
        ghost var digit := Scaled(byte % 128, Power128(d));
        AddModulo(whole, digit, TWO_64);
        assert bitpos / 7 == d;
        result := (result + Scaled(byte % 128, Power128(bitpos / 7))) % TWO_64;
        whole := whole + digit;
        bitpos := bitpos + 7;
        d := d + 1;
        if byte < 0x80 {
          break;
        }
      }
      return true, result;
    }

    method SkipVarint() returns (ok: bool)
      requires Valid()
      modifies this
      ensures Valid() && Beyond() == old(Beyond())
      ensures ok <==> NanopbDecode.SkipVarint(old(Input())).Some?
      ensures ok ==> NanopbDecode.SkipVarint(old(Input())) == Some(Input())
    {
      while true
        invariant Valid() && Beyond() == old(Beyond())
        invariant NanopbDecode.SkipVarint(Input()) == NanopbDecode.SkipVarint(old(Input()))
        decreases |Input()|
      {
        var buf;
        ok, buf := Read(1);
        if !ok {
          return false;
        }
        if buf[0] < 0x80 {
          return true;
        }
      }
    }

    method SkipString() returns (ok: bool)
      requires Valid()
      modifies this
      ensures Valid() && Beyond() == old(Beyond())
      ensures ok <==> TakeString(old(Input())).Parsed?
      ensures ok ==> TakeString(old(Input())).rest == Input()
    {
      hide NanopbDecode.DecodeVarint32;
      var length;
      ok, length := DecodeVarint32();
      if !ok {
        return false;
      }
      var skipped;
      ok, skipped := Read(length);
    }

    method SkipField(wireType: nat) returns (ok: bool)
      requires Valid()
      modifies this
      ensures Valid() && Beyond() == old(Beyond())
      ensures ok <==> NanopbDecode.SkipField(wireType, old(Input())).Some?
      ensures ok ==> NanopbDecode.SkipField(wireType, old(Input())) == Some(Input())
    {
      hide TakeString;
      ok := false;
      var skipped;
      if wireType == WT_VARINT {
        ok := SkipVarint();
      } else if wireType == WT_64BIT {
        ok, skipped := Read(8);
      } else if wireType == WT_STRING {
        ok := SkipString();
      } else if wireType == WT_32BIT {
        ok, skipped := Read(4);
      }
    }

    /** `pb_decode_tag` */
    method DecodeTag() returns (ok: bool, eof: bool, tag: nat, wireType: nat)
      requires Valid() && Input() != []
      modifies this
      ensures Valid() && Beyond() == old(Beyond())
      ensures NanopbDecode.DecodeTag(old(Input())) == (if ok then TagRead(tag, wireType, Input()) else if eof then TagEnd else TagError)
    {
      hide NanopbDecode.DecodeVarint32;
      var temp;
      ok, temp := DecodeVarint32();
      eof, tag, wireType := false, 0, 0;
      if !ok {
        return;
      }
      if temp == 0 {
        return false, true, 0, 0;
      }
      tag, wireType := temp / 8, temp % 8;
    }

    /** A length, and a substream over so many bytes. The stream no longer counts them as its own, but the
        substream reads them from the callback that both share. */
    method MakeStringSubstream() returns (ok: bool, sub: IStream)
      requires Valid()
      modifies this
      ensures fresh(sub) && sub.Valid() && (ok <==> TakeString(old(Input())).Parsed?)
      ensures ok ==> sub.Input() == TakeString(old(Input())).value
      ensures ok ==> sub.Beyond() == TakeString(old(Input())).rest + old(Beyond())
      ensures ok ==> bytesLeft == |TakeString(old(Input())).rest|
      ensures !ok ==> Valid() && Beyond() == old(Beyond())
    {
      hide NanopbDecode.DecodeVarint32;
      ghost var beyond := Beyond();
      var size;
      ok, size := DecodeVarint32();
      sub := new IStream(state, bytesLeft);
      if !ok || bytesLeft < size {
        return false, sub;
      }
      ghost var input := Input();
      assert state == input + beyond;
      sub := new IStream(state, size);
      bytesLeft := bytesLeft - size;
      assert state[..size] == input[..size] && state[size..] == input[size..] + beyond;
    }

    /** What the substream did not read is passed over, and the stream goes on where the substream ended. */
    method CloseStringSubstream(sub: IStream) returns (ok: bool)
      requires sub != this && sub.Valid() && bytesLeft <= |sub.Beyond()|
      modifies this, sub
      ensures ok && Valid() && Input() == old(sub.Beyond()[..bytesLeft]) && Beyond() == old(sub.Beyond()[bytesLeft..])
    {
      if sub.bytesLeft != 0 {
        var skipped;
        ok, skipped := sub.Read(sub.bytesLeft);
        if !ok {
          assert false;
        }
      }
      state := sub.state;
      ok := true;
    }
  }

  lemma VarintStart(input: Bytes)
    ensures ParseVarint(input, 10) == Shifted(ParseVarint(input, 10), 0, Power128(0))
  {
    hide ParseVarint;
  }

  /** One byte of a 64-bit varint: a digit, and whether more follow. */
  lemma VarintRound(input: Bytes, d: nat, whole: nat)
    requires d <= 10
    ensures d == 10 || input == [] ==> Shifted(ParseVarint(input, 10 - d), whole, Power128(d)) == Malformed
    ensures d < 10 && input != [] ==>
      var whole1 := whole + Scaled(input[0] % 128, Power128(d));
      Shifted(ParseVarint(input, 10 - d), whole, Power128(d)) ==
        if input[0] < 128 then Parsed(whole1, input[1..])
        else Shifted(ParseVarint(input[1..], 10 - (d + 1)), whole1, Power128(d + 1))
  {
    hide Scaled, Power128, ParseVarint;
    assert input[0..] == input;
    if d < 10 && input != [] {
      ParseStep(input, 0, 10 - d, whole, Power128(d));
      PowerIsScaled(d);
    } else {
      ParseEnd(input, 0, 10 - d);
    }
  }

  lemma PowerIsScaled(d: nat)
    ensures Power128(d + 1) == Scaled(128, Power128(d))
  {
  }

  lemma Varint32RestUnfolds(input: Bytes, result: nat, d: nat)
    ensures Varint32Rest(input, result, d) ==
      if input == [] then Malformed
      else
        var byte := input[0];
        if d >= 5 && byte % 128 != 0 && (result / 0x8000_0000 == 0 || byte != (if d < 9 then 0xFF else 0x01)) then Malformed
        else
          var result1 := if d < 5 then (result + byte % 128 * Power128(d)) % TWO_32 else result;
          if byte >= 128 then Varint32Rest(input[1..], result1, d + 1)
          else if d == 4 && byte / 16 % 8 != 0 then Malformed
          else Parsed(result1, input[1..])
  {
  }

  /** `pb_field_iter_t`: a place in a descriptor, and the number of required fields before it. The list of
      an empty message type is only its end mark, which has the number zero. */
  class FieldIter {
    const fields: seq<Field>
    var pos: nat
    var requiredIndex: nat

    ghost predicate Valid()
      reads this
    {
      (pos < |fields| || (fields == [] && pos == 0)) && requiredIndex == RequiredIndex(fields, pos)
    }

    constructor (fields: seq<Field>)
      ensures Valid() && this.fields == fields && pos == 0
    {
      this.fields, pos, requiredIndex := fields, 0, 0;
    }

    function Tag(): nat
      requires Valid()
      reads this
    {
      if pos < |fields| then fields[pos].tag else 0
    }

    /** After the last field it is back at the first. */
    method Next() returns (more: bool)
      requires Valid() && forall i :: 0 <= i < |fields| ==> fields[i].tag != 0
      modifies this
      ensures Valid() && (more <==> old(pos) + 1 < |fields|)
      ensures pos == if more then old(pos) + 1 else 0
    {
      if Tag() == 0 {
        return false;
      }
      var prev := pos;
      pos := pos + 1;
      if pos == |fields| {
        pos, requiredIndex := 0, 0;
        return false;
      }
      if fields[prev].htype.Required? {
        requiredIndex := requiredIndex + 1;
      }
      return true;
    }

    /** `pb_field_iter_find`: once around the list, from wherever the iterator is. */
    method Find(tag: nat) returns (found: bool)
      requires Valid() && forall i :: 0 <= i < |fields| ==> fields[i].tag != 0
      modifies this
      ensures Valid() && (found <==> (exists i :: 0 <= i < |fields| && fields[i].tag == tag) || (fields == [] && tag == 0))
      ensures found ==> Tag() == tag
      ensures !found ==> pos == old(pos)
    {
      var start := pos;
      ghost var steps: nat := 0;
      while true
        invariant Valid() && steps <= |fields|
        invariant if pos >= start then steps == pos - start else steps == |fields| - start + pos
        invariant forall i :: 0 <= i < |fields| && (if pos >= start then start <= i < pos else i >= start || i < pos) ==>
                    fields[i].tag != tag
        decreases |fields| + 1 - steps
      {
        if Tag() == tag {
          return true;
        }
        var more := Next();
        if pos == start {
          return false;
        }
        steps := steps + 1;
      }
    }
  }

  lemma {:induction false} RequiredIndexGrows(fields: seq<Field>, i: nat, j: nat)
    requires i <= j <= |fields|
    ensures RequiredIndex(fields, i) <= RequiredIndex(fields, j)
    ensures i < j && fields[i].htype.Required? ==> RequiredIndex(fields, i) < RequiredIndex(fields, j)
    decreases j
  {
    if i < j {
      RequiredIndexGrows(fields, i, j - 1);
    }
  }

  /** Every number below their count is that of some required field. */
  lemma {:induction false} NthRequired(fields: seq<Field>, n: nat, r: nat) returns (i: nat)
    requires n <= |fields| && r < RequiredIndex(fields, n)
    ensures i < n && fields[i].htype.Required? && RequiredIndex(fields, i) == r
    decreases n
  {
    if r < RequiredIndex(fields, n - 1) {
      i := NthRequired(fields, n - 1, r);
    } else {
      i := n - 1;
    }
  }

  /** The bitmap holds the numbers of the required fields seen, as far as it has room for them. */
  ghost predicate Marks(fields: seq<Field>, bits: seq<bool>, seen: set<nat>) {
    && |bits| == MAX_REQUIRED_FIELDS
    && (forall i :: 0 <= i < |fields| && fields[i].htype.Required? && RequiredIndex(fields, i) < MAX_REQUIRED_FIELDS ==>
          (bits[RequiredIndex(fields, i)] <==> i in seen))
    && forall r :: RequiredIndex(fields, |fields|) <= r < MAX_REQUIRED_FIELDS && fields != [] ==> !bits[r]
  }

  lemma MarkNext(fields: seq<Field>, bits: seq<bool>, seen: set<nat>, i: nat)
    requires Marks(fields, bits, seen) && i < |fields|
    ensures var r := RequiredIndex(fields, i);
            Marks(fields, if fields[i].htype.Required? && r < MAX_REQUIRED_FIELDS then bits[r := true] else bits, seen + {i})
  {
    hide RequiredIndex;
    var r := RequiredIndex(fields, i);
    RequiredIndexGrows(fields, i, |fields|);
    forall j | 0 <= j < |fields| && j != i && fields[j].htype.Required? && fields[i].htype.Required?
      ensures RequiredIndex(fields, j) != r
    {
      if j < i {
        RequiredIndexGrows(fields, j, i);
      } else {
        RequiredIndexGrows(fields, i, j);
      }
    }
  }

  /** A word of the bitmap has exactly its `n` lowest bits set. */
  predicate WordIsLow(bits: seq<bool>, word: nat, n: nat)
    requires 32 * word + 32 <= |bits|
  {
    forall r :: 32 * word <= r < 32 * word + 32 ==> (bits[r] <==> r < 32 * word + n)
  }

  /** The check for missing fields, whole words first. */
  method CheckRequired(bits: seq<bool>, count: nat) returns (ok: bool)
    requires |bits| == MAX_REQUIRED_FIELDS && count <= MAX_REQUIRED_FIELDS
    requires forall r :: count <= r < MAX_REQUIRED_FIELDS && count > 0 ==> !bits[r]
    ensures ok <==> forall r :: 0 <= r < count ==> bits[r]
  {
    if count > 0 {
      var i := 0;
      while i < count / 32
        invariant i <= count / 32
        invariant forall r :: 0 <= r < 32 * i ==> bits[r]
      {
        if !WordIsLow(bits, i, 32) {
          return false;
        }
        i := i + 1;
      }
      if count % 32 != 0 {
        if !WordIsLow(bits, count / 32, count % 32) {
          return false;
        }
      }
    }
    ok := true;
  }

  /** What the bitmap tells is that no required field is missing. */
  lemma MarksTell(fields: seq<Field>, bits: seq<bool>, seen: set<nat>, count: nat)
    requires Marks(fields, bits, seen) && fields != []
    requires count == if RequiredIndex(fields, |fields|) > MAX_REQUIRED_FIELDS then MAX_REQUIRED_FIELDS else RequiredIndex(fields, |fields|)
    ensures (forall r :: 0 <= r < count ==> bits[r]) <==> AllSeen(fields, seen)
  {
    hide RequiredIndex;
    if AllSeen(fields, seen) {
      forall r | 0 <= r < count ensures bits[r] {
        var i := NthRequired(fields, |fields|, r);
      }
    }
    if forall r :: 0 <= r < count ==> bits[r] {
      forall i | 0 <= i < |fields| && fields[i].htype.Required? && RequiredIndex(fields, i) < MAX_REQUIRED_FIELDS ensures i in seen {
        RequiredIndexGrows(fields, i, |fields|);
        assert bits[RequiredIndex(fields, i)];
      }
    }
  }

  lemma TagsNotZero(fields: seq<Field>)
    requires DescriptorOk(fields)
    ensures forall i :: 0 <= i < |fields| ==> fields[i].tag != 0
  {
    forall i | 0 <= i < |fields| ensures fields[i].tag != 0 {
      assert FieldOk(fields[i]);
    }
  }

  lemma FieldIsOk(fields: seq<Field>, i: nat)
    requires DescriptorOk(fields) && i < |fields|
    ensures FieldOk(fields[i])
  {
  }

  lemma NothingMarked(fields: seq<Field>, bits: seq<bool>)
    requires |bits| == MAX_REQUIRED_FIELDS && forall r :: 0 <= r < |bits| ==> !bits[r]
    ensures Marks(fields, bits, {})
  {
    hide RequiredIndex;
  }

  /** What the iterator finds is the field with the number. */
  lemma FoundIs(fields: seq<Field>, tag: nat, pos: nat, found: bool)
    requires DescriptorOk(fields)
    requires found <==> (exists i :: 0 <= i < |fields| && fields[i].tag == tag) || (fields == [] && tag == 0)
    requires found && fields != [] ==> pos < |fields| && fields[pos].tag == tag
    ensures FindTag(fields, tag) == if found && fields != [] then Some(pos) else None
  {
    hide FindTag;
    var r := FindTag(fields, tag);
    if r.Some? && found && fields != [] && r.value != pos {
      assert false;
    }
  }

  /** Goes on to the end of the list to count its required fields. */
  method CountRequired(iter: FieldIter) returns (count: nat)
    requires iter.Valid() && forall i :: 0 <= i < |iter.fields| ==> iter.fields[i].tag != 0
    modifies iter
    ensures count == RequiredIndex(iter.fields, |iter.fields|)
  {
    var lastRequired := true;
    while true
      invariant iter.Valid()
      decreases |iter.fields| - iter.pos
    {
      ghost var at := iter.pos;
      count := iter.requiredIndex;
      lastRequired := iter.Tag() == 0 || iter.fields[iter.pos].htype.Required?;
      var more := iter.Next();
      if !more {
        assert iter.fields != [] ==> at == |iter.fields| - 1;
        break;
      }
    }
    if lastRequired && iter.Tag() != 0 {
      count := count + 1;
    }
  }

  /** One value by the decoder of its type. A submessage is merged into what is there. */
  method DecodeData(stream: IStream, t: LType, cur: Value) returns (ok: bool, v: Value)
    requires stream.Valid() && SizesOk(t)
    modifies stream
    ensures stream.Valid() && stream.Beyond() == old(stream.Beyond())
    ensures ok <==> DecodeValue(t, cur, old(stream.Input())).Parsed?
    ensures ok ==> DecodeValue(t, cur, old(stream.Input())) == Parsed(v, stream.Input())
    decreases t, 0
  {
    hide DecodeVarint32, GetVarint64, TakeString, DecodeFields, DefaultSlots, Zeros, FixedValue, DescriptorOk;
    match t {
      case BoolT =>
        var value;
        ok, value := stream.DecodeVarint32();
        v := Int(if value != 0 then 1 else 0);
      case VarintT(size) =>
        var value;
        ok, value := stream.DecodeVarint();
        var svalue := if size == 8 then Signed(value, TWO_64) else Signed(value, TWO_32);
        v := Int(Signed(svalue, Span(size)));
        ok := ok && v.i == svalue;
      case UvarintT(size) =>
        var value;
        ok, value := stream.DecodeVarint();
        v := Int(value % Span(size));
        ok := ok && v.i == value;
      case SvarintT(size) =>
        var value;
        ok, value := stream.DecodeVarint();
        var svalue := UnZigZag(value);
        v := Int(Signed(svalue, Span(size)));
        ok := ok && v.i == svalue;
      case Fixed32T =>
        var bytes;
        ok, bytes := stream.Read(4);
        v := Int(FixedValue(bytes));
      case Fixed64T =>
        var bytes;
        ok, bytes := stream.Read(8);
        v := Int(FixedValue(bytes));
      case BytesT(max) => ok, v := DecodeBlob(stream, max);
      case StringT(max) => ok, v := DecodeBlob(stream, max - 1);
      case FixedBytesT(size) => ok, v := DecodeFixedBytes(stream, size);
      case MessageT(fields) => ok, v := DecodeSubmessage(stream, t, cur);
    }
  }

  /** A length that is checked against the room before anything is read. */
  method DecodeBlob(stream: IStream, max: int) returns (ok: bool, v: Value)
    requires stream.Valid()
    modifies stream
    ensures stream.Valid() && stream.Beyond() == old(stream.Beyond())
    ensures var p := TakeString(old(stream.Input()));
            (ok <==> p.Parsed? && |p.value| <= max) && (ok ==> v == Blob(p.value) && stream.Input() == p.rest)
  {
    hide DecodeVarint32;
    v := Blob([]);
    var size;
    ok, size := stream.DecodeVarint32();
    if !ok {
      return;
    }
    if size > max {
      ok := false;
      return;
    }
    var bytes;
    ok, bytes := stream.Read(size);
    v := Blob(bytes);
  }

  /** Bytes of a fixed length; an empty string stands for zeros. */
  method DecodeFixedBytes(stream: IStream, size: nat) returns (ok: bool, v: Value)
    requires stream.Valid()
    modifies stream
    ensures stream.Valid() && stream.Beyond() == old(stream.Beyond())
    ensures var t := FixedBytesT(size);
            (ok <==> DecodeValue(t, Int(0), old(stream.Input())).Parsed?)
            && (ok ==> DecodeValue(t, Int(0), old(stream.Input())) == Parsed(v, stream.Input()))
  {
    hide DecodeVarint32, Zeros;
    v := Blob([]);
    var length;
    ok, length := stream.DecodeVarint32();
    if !ok {
      return;
    }
    if length == 0 {
      v := Blob(Zeros(size));
      return;
    }
    if length != size {
      ok := false;
      return;
    }
    var bytes;
    ok, bytes := stream.Read(size);
    v := Blob(bytes);
  }

  method DecodeSubmessage(stream: IStream, t: LType, cur: Value) returns (ok: bool, v: Value)
    requires stream.Valid() && SizesOk(t) && t.MessageT?
    modifies stream
    ensures stream.Valid() && stream.Beyond() == old(stream.Beyond())
    ensures ok <==> DecodeValue(t, cur, old(stream.Input())).Parsed?
    ensures ok ==> DecodeValue(t, cur, old(stream.Input())) == Parsed(v, stream.Input())
    decreases t.fields, 2
  {
    hide TakeString, DecodeFields, DefaultSlots, DescriptorOk;
    v := cur;
    ghost var beyond := stream.Beyond();
    var sub;
    ok, sub := stream.MakeStringSubstream();
    if !ok {
      return;
    }
    ghost var rest := TakeString(old(stream.Input())).rest;
    var slots := if cur.Msg? && |cur.slots| == |t.fields| then cur.slots else DefaultSlots(t.fields);
    var status, slots1 := DecodeNoInit(sub, t.fields, slots);
    assert sub.Beyond() == rest + beyond;
    assert (rest + beyond)[..|rest|] == rest && (rest + beyond)[|rest|..] == beyond;
    ok := stream.CloseStringSubstream(sub);
    ok := ok && status;
    v := Msg(slots1);
  }

  /** The items of a packed array, into the room that is left. */
  method DecodePackedItems(stream: IStream, t: LType, items: seq<Value>, max: nat) returns (ok: bool, r: seq<Value>)
    requires stream.Valid() && SizesOk(t) && Packable(t)
    modifies stream
    ensures stream.Valid()
    ensures DecodePacked(t, items, max, old(stream.Input())) == if ok then Some(r) else None
    ensures stream.Beyond() == old(stream.Beyond()) && (ok ==> stream.Input() == [])
    decreases t, 1
  {
    hide DecodeValue, DecodePacked, SizesOk, DefaultValue;
    r := items;
    while stream.bytesLeft > 0 && |r| < max
      invariant stream.Valid() && stream.Beyond() == old(stream.Beyond())
      invariant DecodePacked(t, items, max, old(stream.Input())) == DecodePacked(t, r, max, stream.Input())
      decreases |stream.Input()|
    {
      PackedUnfolds(t, r, max, stream.Input());
      var v;
      ok, v := DecodeData(stream, t, DefaultValue(t));
      if !ok {
        return;
      }
      r := r + [v];
    }
    PackedUnfolds(t, r, max, stream.Input());
    ok := stream.bytesLeft == 0;
  }

  lemma PackedUnfolds(t: LType, items: seq<Value>, max: nat, input: Bytes)
    ensures DecodePacked(t, items, max, input) ==
      if input == [] then Some(items)
      else if |items| >= max then None
      else
        match DecodeValue(t, DefaultValue(t), input)
        case Malformed => None
        case Parsed(v, rest) => DecodePacked(t, items + [v], max, rest)
  {
    hide DecodeValue, DefaultValue;
  }

  /** One occurrence of a field. */
  method DecodeStaticField(stream: IStream, f: Field, s: Slot, wireType: nat) returns (ok: bool, r: Slot)
    requires stream.Valid() && FieldOk(f)
    modifies stream
    ensures stream.Valid() && stream.Beyond() == old(stream.Beyond())
    ensures ok <==> DecodeSlot(f, s, wireType, old(stream.Input())).Parsed?
    ensures ok ==> DecodeSlot(f, s, wireType, old(stream.Input())) == Parsed(r, stream.Input())
    decreases f, 1
  {
    hide DecodeValue, DecodePacked, SizesOk, DefaultValue, Packable, TakeString;
    r := s;
    match f.htype {
      case Repeated(max) =>
        var items := if s.Many? then s.items else [];
        if wireType == WT_STRING && Packable(f.ltype) {
          ok, items := DecodePackedField(stream, f.ltype, items, max);
          r := Many(items);
        } else if |items| >= max {
          ok := false;
        } else {
          var v;
          ok, v := DecodeData(stream, f.ltype, DefaultValue(f.ltype));
          r := Many(items + [v]);
        }
      case Oneof(_) =>
        // The union holds another field's data, so this one starts afresh.
        var cur := if s.One? && s.has then s.value else DefaultValue(f.ltype);
        var v;
        ok, v := DecodeData(stream, f.ltype, cur);
        r := One(true, v);
      case _ =>
        var cur := if s.One? then s.value else DefaultValue(f.ltype);
        var v;
        ok, v := DecodeData(stream, f.ltype, cur);
        r := One(true, v);
    }
  }

  method DecodePackedField(stream: IStream, t: LType, items: seq<Value>, max: nat) returns (ok: bool, r: seq<Value>)
    requires stream.Valid() && SizesOk(t) && Packable(t)
    modifies stream
    ensures stream.Valid() && stream.Beyond() == old(stream.Beyond())
    ensures var p := TakeString(old(stream.Input()));
            (ok <==> p.Parsed? && DecodePacked(t, items, max, p.value).Some?)
            && (ok ==> DecodePacked(t, items, max, p.value) == Some(r) && stream.Input() == p.rest)
    decreases t, 2
  {
    hide DecodePacked, SizesOk, Packable, TakeString;
    r := items;
    ghost var beyond := stream.Beyond();
    var sub;
    ok, sub := stream.MakeStringSubstream();
    if !ok {
      return;
    }
    ghost var rest := TakeString(old(stream.Input())).rest;
    var status;
    status, r := DecodePackedItems(sub, t, items, max);
    assert sub.Beyond() == rest + beyond;
    assert (rest + beyond)[..|rest|] == rest && (rest + beyond)[|rest|..] == beyond;
    ok := stream.CloseStringSubstream(sub);
    ok := ok && status;
  }

  lemma CountTells(fields: seq<Field>, bits: seq<bool>, seen: set<nat>, count: nat)
    requires Marks(fields, bits, seen)
    requires count == if RequiredIndex(fields, |fields|) > MAX_REQUIRED_FIELDS then MAX_REQUIRED_FIELDS else RequiredIndex(fields, |fields|)
    ensures (forall r :: 0 <= r < count ==> bits[r]) <==> AllSeen(fields, seen)
    ensures forall r :: count <= r < MAX_REQUIRED_FIELDS && count > 0 ==> !bits[r]
  {
    hide AllSeen, Marks;
    if fields == [] {
      NoneRequired(fields, seen);
    } else {
      MarksTell(fields, bits, seen, count);
      UnusedBits(fields, bits, seen, count);
    }
  }

  lemma NoneRequired(fields: seq<Field>, seen: set<nat>)
    requires fields == []
    ensures AllSeen(fields, seen) && RequiredIndex(fields, |fields|) == 0
  {
  }

  lemma UnusedBits(fields: seq<Field>, bits: seq<bool>, seen: set<nat>, count: nat)
    requires Marks(fields, bits, seen) && fields != []
    requires count == if RequiredIndex(fields, |fields|) > MAX_REQUIRED_FIELDS then MAX_REQUIRED_FIELDS else RequiredIndex(fields, |fields|)
    ensures forall r :: count <= r < MAX_REQUIRED_FIELDS ==> !bits[r]
  {
    hide RequiredIndex;
  }

  /** `pb_decode_noinit`: fields in any order, into a message that holds `slots` so far. */
  method DecodeNoInit(stream: IStream, fields: seq<Field>, slots: seq<Slot>) returns (ok: bool, r: seq<Slot>)
    requires stream.Valid() && DescriptorOk(fields) && |slots| == |fields|
    modifies stream
    ensures stream.Valid() && stream.Beyond() == old(stream.Beyond())
    ensures DecodeFields(fields, slots, {}, old(stream.Input())) == if ok then Some(r) else None
    ensures |r| == |fields|
    decreases fields, 1
  {
    hide FieldOk, DecodeSlot, DecodeTag, FindTag, SkipField, Put, AllSeen, Marks, RequiredIndex, DescriptorOk, DecodeVarint32;
    var bits := seq(MAX_REQUIRED_FIELDS, _ => false);
    ghost var seen: set<nat> := {};
    ghost var whole := DecodeFields(fields, slots, {}, stream.Input());
    var iter := new FieldIter(fields);
    TagsNotZero(fields);
    NothingMarked(fields, bits);
    r := slots;
    while stream.bytesLeft != 0
      invariant stream.Valid() && stream.Beyond() == old(stream.Beyond()) && iter.Valid() && iter.fields == fields
      invariant |r| == |fields| && |bits| == MAX_REQUIRED_FIELDS && Marks(fields, bits, seen)
      invariant whole == DecodeFields(fields, r, seen, stream.Input())
      decreases |stream.Input()|
    {
      ghost var input := stream.Input();
      var more, eof, tag, wireType := stream.DecodeTag();
      if !more {
        if eof {
          break;
        }
        return false, r;
      }
      var found := iter.Find(tag);
      FoundIs(fields, tag, iter.pos, found);
      if !found {
        ok := stream.SkipField(wireType);
        if !ok {
          return false, r;
        }
        continue;
      }
      if fields == [] {
        var value;
        ok, value := stream.DecodeVarint32();
        if !ok {
          return false, r;
        }
        continue;
      }
      var i := iter.pos;
      MarkNext(fields, bits, seen, i);
      FieldIsOk(fields, i);
      if fields[i].htype.Required? && iter.requiredIndex < MAX_REQUIRED_FIELDS {
        bits := bits[iter.requiredIndex := true];
      }
      var s;
      ok, s := DecodeStaticField(stream, fields[i], r[i], wireType);
      if !ok {
        return false, r;
      }
      r := Put(fields, r, i, s);
      seen := seen + {i};
    }
    assert whole == if AllSeen(fields, seen) then Some(r) else None;
    var count := CountRequired(iter);
    if count > MAX_REQUIRED_FIELDS {
      count := MAX_REQUIRED_FIELDS;
    }
    CountTells(fields, bits, seen, count);
    ok := CheckRequired(bits, count);
  }

  /** `pb_decode` of a buffer: it gives what the specification of the decoder gives. */
  method DecodeBuffer(fields: seq<Field>, input: Bytes) returns (r: Option<seq<Slot>>)
    requires DescriptorOk(fields)
    ensures r == Decode(fields, input)
  {
    hide DecodeFields, DescriptorOk, DefaultSlots;
    var stream := new IStream(input, |input|);
    assert input[..|input|] == input;
    var ok, slots := DecodeNoInit(stream, fields, DefaultSlots(fields));
    r := if ok then Some(slots) else None;
  }
}
