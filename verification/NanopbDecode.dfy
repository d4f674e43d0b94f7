/** Decoding by descriptor (pb_decode.c), and the proof that it restores what was encoded. */
module NanopbDecode {
  import opened Keys
  import opened Coding
  import opened Nanopb

  /** The rest of a 32-bit varint, `d` bytes of which have been read. Bytes past the width may only
      repeat the sign. */
  function Varint32Rest(input: Bytes, result: nat, d: nat): (r: Parsed<nat>)
    ensures r.Parsed? ==> |r.rest| < |input|
    decreases |input|
  {
    if input == [] then Malformed
    else
      var byte := input[0];
      if d >= 5 && byte % 128 != 0 && (result / 0x8000_0000 == 0 || byte != (if d < 9 then 0xFF else 0x01)) then Malformed
      else
        var result1 := if d < 5 then (result + byte % 128 * Power128(d)) % TWO_32 else result;
        if byte >= 128 then Varint32Rest(input[1..], result1, d + 1)
        else if d == 4 && byte / 16 % 8 != 0 then Malformed
        else Parsed(result1, input[1..])
  }

  function DecodeVarint32(input: Bytes): (r: Parsed<nat>)
    ensures r.Parsed? ==> |r.rest| < |input|
  {
    if input == [] then Malformed
    else if input[0] < 128 then Parsed(input[0], input[1..])
    else Varint32Rest(input[1..], input[0] - 128, 1)
  }

  /** A length, and that many bytes. */
  function TakeString(input: Bytes): (r: Parsed<Bytes>)
    ensures r.Parsed? ==> |r.rest| < |input|
  {
    match DecodeVarint32(input)
    case Malformed => Malformed
    case Parsed(size, rest) => if |rest| < size then Malformed else Parsed(rest[..size], rest[size..])
  }

  function TakeBytes(input: Bytes, n: nat): (r: Parsed<Bytes>)
    ensures r.Parsed? ==> |r.rest| + n == |input|
  {
    if |input| < n then Malformed else Parsed(input[..n], input[n..])
  }

  /** The low part of a number, read as two's complement. */
  function Signed(v: int, span: int): int
    requires span > 0
  {
    var low := v % span;
    if 2 * low >= span then low - span else low
  }

  function UnZigZag(v: nat): int {
    if v % 2 == 1 then -(v / 2) - 1 else v / 2
  }

  function DecodeValue(t: LType, cur: Value, input: Bytes): (r: Parsed<Value>)
    ensures r.Parsed? ==> |r.rest| < |input|
    decreases t, 0
  {
    match t
    case BoolT =>
      (match DecodeVarint32(input)
       case Malformed => Malformed
       case Parsed(v, rest) => Parsed(Int(if v != 0 then 1 else 0), rest))
    case VarintT(size) =>
      (match GetVarint64(input)
       case Malformed => Malformed
       case Parsed(v, rest) =>
         var svalue := if size == 8 then Signed(v, TWO_64) else Signed(v, TWO_32);
         if Signed(svalue, Span(size)) != svalue then Malformed else Parsed(Int(svalue), rest))
    case UvarintT(size) =>
      (match GetVarint64(input)
       case Malformed => Malformed
       case Parsed(v, rest) => if v % Span(size) != v then Malformed else Parsed(Int(v), rest))
    case SvarintT(size) =>
      (match GetVarint64(input)
       case Malformed => Malformed
       case Parsed(v, rest) =>
         if Signed(UnZigZag(v), Span(size)) != UnZigZag(v) then Malformed else Parsed(Int(UnZigZag(v)), rest))
    case Fixed32T =>
      (match TakeBytes(input, 4)
       case Malformed => Malformed
       case Parsed(b, rest) => Parsed(Int(FixedValue(b)), rest))
    case Fixed64T =>
      (match TakeBytes(input, 8)
       case Malformed => Malformed
       case Parsed(b, rest) => Parsed(Int(FixedValue(b)), rest))
    case BytesT(max) =>
      (match TakeString(input)
       case Malformed => Malformed
       case Parsed(b, rest) => if |b| > max then Malformed else Parsed(Blob(b), rest))
    case StringT(max) =>
      (match TakeString(input)
       case Malformed => Malformed
       case Parsed(b, rest) => if |b| + 1 > max then Malformed else Parsed(Blob(b), rest))
    case FixedBytesT(size) =>
      (match TakeString(input)
       case Malformed => Malformed
       case Parsed(b, rest) =>
         if b == [] then Parsed(Blob(Zeros(size)), rest) else if |b| != size then Malformed else Parsed(Blob(b), rest))
    case MessageT(fields) =>
      (match TakeString(input)
       case Malformed => Malformed
       case Parsed(sub, rest) =>
         var slots := if cur.Msg? && |cur.slots| == |fields| then cur.slots else DefaultSlots(fields);
         match DecodeFields(fields, slots, {}, sub)
         case None => Malformed
         case Some(slots1) => Parsed(Msg(slots1), rest))
  }

  /** The items of a packed array, up to its room. */
  function DecodePacked(t: LType, items: seq<Value>, max: nat, input: Bytes): Option<seq<Value>>
    decreases t, 1, |input|
  {
    if input == [] then Some(items)
    else if |items| >= max then None
    else
      match DecodeValue(t, DefaultValue(t), input)
      case Malformed => None
      case Parsed(v, rest) => DecodePacked(t, items + [v], max, rest)
  }

  /** One occurrence of a field. A field of a oneof that was not the current one starts afresh. */
  function DecodeSlot(f: Field, s: Slot, wireType: nat, input: Bytes): (r: Parsed<Slot>)
    ensures r.Parsed? ==> |r.rest| < |input|
  {
    if f.htype.Repeated? then
      var items := if s.Many? then s.items else [];
      if wireType == WT_STRING && Packable(f.ltype) then
        match TakeString(input)
        case Malformed => Malformed
        case Parsed(sub, rest) =>
          match DecodePacked(f.ltype, items, f.htype.max, sub)
          case None => Malformed
          case Some(items1) => Parsed(Many(items1), rest)
      else if |items| >= f.htype.max then Malformed
      else
        match DecodeValue(f.ltype, DefaultValue(f.ltype), input)
        case Malformed => Malformed
        case Parsed(v, rest) => Parsed(Many(items + [v]), rest)
    else
      var cur := if s.One? && (s.has || !f.htype.Oneof?) then s.value else DefaultValue(f.ltype);
      match DecodeValue(f.ltype, cur, input)
      case Malformed => Malformed
      case Parsed(v, rest) => Parsed(One(true, v), rest)
  }

  function SkipVarint(input: Bytes): (r: Option<Bytes>)
    ensures r.Some? ==> |r.value| < |input|
  {
    if input == [] then None else if input[0] < 128 then Some(input[1..]) else SkipVarint(input[1..])
  }

  /** Passes over a field that the descriptor does not know. */
  function SkipField(wireType: nat, input: Bytes): (r: Option<Bytes>)
    ensures r.Some? ==> |r.value| <= |input|
  {
    if wireType == WT_VARINT then SkipVarint(input)
    else if wireType == WT_64BIT then (if |input| < 8 then None else Some(input[8..]))
    else if wireType == WT_STRING then (match TakeString(input) case Malformed => None case Parsed(_, rest) => Some(rest))
    else if wireType == WT_32BIT then (if |input| < 4 then None else Some(input[4..]))
    else None
  }

  function FindTag(fields: seq<Field>, tag: nat): (r: Option<nat>)
    ensures r.Some? ==> r.value < |fields| && fields[r.value].tag == tag
    ensures r.None? ==> forall i :: 0 <= i < |fields| ==> fields[i].tag != tag
  {
    if fields == [] then None
    else if fields[|fields| - 1].tag == tag then Some(|fields| - 1)
    else FindTag(fields[..|fields| - 1], tag)
  }

  /** The other fields of a oneof are no longer the current one. */
  function ClearGroup(fields: seq<Field>, slots: seq<Slot>, group: nat): (r: seq<Slot>)
    requires |slots| == |fields|
    ensures |r| == |fields|
    ensures forall i :: 0 <= i < |fields| ==> r[i] == if fields[i].htype == Oneof(group) then DefaultSlot(fields[i]) else slots[i]
  {
    if fields == [] then []
    else
      ClearGroup(fields[..|fields| - 1], slots[..|fields| - 1], group)
      + [if fields[|fields| - 1].htype == Oneof(group) then DefaultSlot(fields[|fields| - 1]) else slots[|fields| - 1]]
  }

  function Put(fields: seq<Field>, slots: seq<Slot>, i: nat, s: Slot): (r: seq<Slot>)
    requires i < |fields| == |slots|
    ensures |r| == |fields|
  {
    if fields[i].htype.Oneof? then ClearGroup(fields, slots, fields[i].htype.group)[i := s] else slots[i := s]
  }

  /** Which of the required fields field `i` is. */
  function RequiredIndex(fields: seq<Field>, i: nat): nat
    requires i <= |fields|
  {
    if i == 0 then 0 else RequiredIndex(fields, i - 1) + if fields[i - 1].htype.Required? then 1 else 0
  }

  /** Of the required fields that are kept track of, none is missing. */
  predicate AllSeen(fields: seq<Field>, seen: set<nat>) {
    forall i :: 0 <= i < |fields| && fields[i].htype.Required? && RequiredIndex(fields, i) < MAX_REQUIRED_FIELDS ==> i in seen
  }

  datatype TagResult = TagError | TagEnd | TagRead(tag: nat, wireType: nat, rest: Bytes)

  /** A tag; a zero ends the message. */
  function DecodeTag(input: Bytes): (r: TagResult)
    ensures r.TagRead? ==> |r.rest| < |input|
  {
    match DecodeVarint32(input)
    case Malformed => TagError
    case Parsed(v, rest) => if v == 0 then TagEnd else TagRead(v / 8, v % 8, rest)
  }

  /** What one round of the decoding loop comes to: a message with one field more, or with a field passed
      over, and the input that is left. */
  datatype Round = Broken | Ended | Next(slots: seq<Slot>, seen: set<nat>, rest: Bytes)

  function NextField(fields: seq<Field>, slots: seq<Slot>, seen: set<nat>, input: Bytes): (r: Round)
    requires |slots| == |fields|
    ensures r.Next? ==> |r.slots| == |fields| && |r.rest| < |input|
    decreases fields, |input|, 0
  {
    match DecodeTag(input)
    case TagError => Broken
    case TagEnd => Ended
    case TagRead(tag, wireType, rest) =>
      match FindTag(fields, tag)
      case None =>
        // Without fields, the search for the number zero stops at the end mark, which reads as a bool field.
        var skipped := if fields == [] && tag == 0 then SkipBool(rest) else SkipField(wireType, rest);
        if skipped.None? then Broken else Next(slots, seen, skipped.value)
      case Some(i) =>
        (match DecodeSlot(fields[i], slots[i], wireType, rest)
         case Malformed => Broken
         case Parsed(s, rest1) => Next(Put(fields, slots, i, s), seen + {i}, rest1))
  }

  function SkipBool(input: Bytes): (r: Option<Bytes>)
    ensures r.Some? ==> |r.value| < |input|
  {
    match DecodeVarint32(input)
    case Malformed => None
    case Parsed(_, rest) => Some(rest)
  }

  /** A varint that is taken ends where passing over it does, and leaves a tail of the input. */
  lemma {:induction false} Varint32RestEnds(input: Bytes, result: nat, d: nat)
    ensures var r := Varint32Rest(input, result, d);
            r.Parsed? ==> SkipVarint(input) == Some(r.rest) && r.rest == input[|input| - |r.rest|..]
    decreases |input|
  {
    if input != [] && input[0] >= 128 {
      var result1 := if d < 5 then (result + input[0] % 128 * Power128(d)) % TWO_32 else result;
      Varint32RestEnds(input[1..], result1, d + 1);
    }
  }

  lemma DecodeVarint32Ends(input: Bytes)
    ensures var r := DecodeVarint32(input);
            r.Parsed? ==> SkipVarint(input) == Some(r.rest) && r.rest == input[|input| - |r.rest|..]
  {
    if input != [] && input[0] >= 128 {
      Varint32RestEnds(input[1..], input[0] - 128, 1);
    }
  }

  /** Reading a bool passes over the same bytes as the wire type says: of a varint unless it overflows, of
      eight or four bytes if the varint has that many, of a string if it is empty; or both fail. */
  predicate PassesAlike(wireType: nat, rest: Bytes) {
    match DecodeVarint32(rest)
    case Malformed =>
      if wireType == WT_VARINT then SkipVarint(rest).None?
      else if wireType == WT_64BIT then |rest| < 8
      else if wireType == WT_32BIT then |rest| < 4
      else true
    case Parsed(v, rest1) =>
      || wireType == WT_VARINT
      || (wireType == WT_64BIT && |rest| == |rest1| + 8)
      || (wireType == WT_32BIT && |rest| == |rest1| + 4)
      || (wireType == WT_STRING && v == 0)
  }

  lemma BoolPassesAlike(wireType: nat, rest: Bytes)
    ensures SkipBool(rest) == SkipField(wireType, rest) <==> PassesAlike(wireType, rest)
  {
    hide DecodeVarint32, SkipVarint;
    DecodeVarint32Ends(rest);
  }

  /** A round that comes to nothing but the input left after some bytes. */
  function PassedOver(slots: seq<Slot>, seen: set<nat>, left: Option<Bytes>): Round {
    if left.None? then Broken else Next(slots, seen, left.value)
  }

  /** A field that the descriptor does not know is passed over by its wire type, exactly when the message
      type has fields, or the field's number is not zero, or a bool in its place takes the same bytes. */
  lemma UnknownFieldPassed(fields: seq<Field>, slots: seq<Slot>, seen: set<nat>, input: Bytes)
    requires |slots| == |fields| && DecodeTag(input).TagRead? && FindTag(fields, DecodeTag(input).tag).None?
    ensures var t := DecodeTag(input);
            NextField(fields, slots, seen, input) == PassedOver(slots, seen, SkipField(t.wireType, t.rest))
            <==> fields != [] || t.tag != 0 || PassesAlike(t.wireType, t.rest)
  {
    hide DecodeVarint32, SkipField, SkipBool, PassesAlike;
    BoolPassesAlike(DecodeTag(input).wireType, DecodeTag(input).rest);
  }

  /** A string of three bytes, under the number zero: without fields only its length is passed over. */
  lemma EmptyTypeMisreads()
    ensures DecodeTag([2, 3, 1, 1, 1]) == TagRead(0, WT_STRING, [3, 1, 1, 1])
    ensures SkipField(WT_STRING, [3, 1, 1, 1]) == Some([])
    ensures NextField([], [], {}, [2, 3, 1, 1, 1]) == Next([], {}, [1, 1, 1])
  {
    var input: Bytes := [3, 1, 1, 1];
    assert DecodeVarint32(input) == Parsed(3, [1, 1, 1]);
    assert DecodeVarint32([2] + input) == Parsed(2, input);
    assert [2] + input == [2, 3, 1, 1, 1];
  }

  /** All fields in the input, into a message that holds `slots` so far. */
  function DecodeFields(fields: seq<Field>, slots: seq<Slot>, seen: set<nat>, input: Bytes): (r: Option<seq<Slot>>)
    requires |slots| == |fields|
    ensures r.Some? ==> |r.value| == |fields|
    decreases fields, |input|, 1
  {
    var round := if input == [] then Ended else NextField(fields, slots, seen, input);
    match round
    case Broken => None
    case Ended => if AllSeen(fields, seen) then Some(slots) else None
    case Next(slots1, seen1, rest) => DecodeFields(fields, slots1, seen1, rest)
  }

  /** `pb_decode`: into a fresh message. */
  function Decode(fields: seq<Field>, input: Bytes): Option<seq<Slot>> {
    DecodeFields(fields, DefaultSlots(fields), {}, input)
  }
}
