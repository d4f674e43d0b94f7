/** Integer and string codecs (util/coding.cc, util/coding.h) and the checksum mask (util/crc32c.h). */
module Coding {
  import opened Keys

  const TWO_32: nat := 0x1_0000_0000
  const TWO_64: nat := 0x1_0000_0000_0000_0000

  type Word32 = x: int | 0 <= x < 0x1_0000_0000
  type Word64 = x: int | 0 <= x < 0x1_0000_0000_0000_0000

  /** What a decoder took off the front of its input, and what it left. */
  datatype Parsed<+T> = Malformed | Parsed(value: T, rest: Bytes)

  /** `n` bytes, least significant first. */
  function Fixed(v: nat, n: nat): (r: Bytes)
    ensures |r| == n
  {
    if n == 0 then [] else [v % 256] + Fixed(v / 256, n - 1)
  }

  function FixedValue(b: Bytes): nat {
    if b == [] then 0 else b[0] + 256 * FixedValue(b[1..])
  }

  function Power256(n: nat): (p: nat)
    ensures p > 0
  {
    if n == 0 then 1 else 256 * Power256(n - 1)
  }

  lemma {:induction false} FixedRoundTrip(v: nat, n: nat)
    requires v < Power256(n)
    ensures FixedValue(Fixed(v, n)) == v
  {
    if n > 0 {
      FixedRoundTrip(v / 256, n - 1);
      assert Fixed(v, n)[1..] == Fixed(v / 256, n - 1);
    }
  }

  lemma Fixed32RoundTrip(v: Word32)
    ensures FixedValue(Fixed(v, 4)) == v
  {
    assert Power256(4) == 256 * (256 * (256 * (256 * Power256(0))));
    FixedRoundTrip(v, 4);
  }

  lemma {:induction false} FixedBound(b: Bytes)
    ensures FixedValue(b) < Power256(|b|)
  {
    if b != [] {
      FixedBound(b[1..]);
    }
  }

  function DecodeFixed32(b: Bytes): (v: Word32)
    requires |b| == 4
    ensures v == FixedValue(b)
  {
    FixedBound(b);
    assert Power256(4) == 256 * (256 * (256 * (256 * Power256(0))));
    FixedValue(b)
  }

  const MASK_DELTA: nat := 0xa282ead8

  /** Rotate right by 15 bits and add a constant, in 32 bits. */
  function Mask(crc: Word32): Word32 {
    (crc / 0x8000 + crc % 0x8000 * 0x2_0000 + MASK_DELTA) % TWO_32
  }

  function Unmask(masked: Word32): Word32 {
    var rot := (masked - MASK_DELTA) % TWO_32;
    rot / 0x2_0000 + rot % 0x2_0000 * 0x8000
  }

  lemma MaskRoundTrip(crc: Word32)
    ensures Unmask(Mask(crc)) == crc
  {
    var rot := crc / 0x8000 + crc % 0x8000 * 0x2_0000;
    assert (Mask(crc) - MASK_DELTA) % TWO_32 == rot;
    assert rot / 0x2_0000 == crc % 0x8000;
  }

  /** Seven bits a byte, least significant first; the high bit says that more follow. */
  function Varint(v: nat): (r: Bytes)
    ensures r != []
  {
    if v < 128 then [v] else [v % 128 + 128] + Varint(v / 128)
  }

  method EncodeVarint32(v: Word32) returns (r: Bytes)
    ensures r == Varint(v) && 1 <= |r| <= 5
  {
    hide Varint;
    if v < 0x80 {
      VarintByte(v);
      r := [v];
    } else if v < 0x4000 {
      Varint2(v);
      r := [v % 128 + 128, v / 0x80];
    } else if v < 0x20_0000 {
      Varint3(v);
      r := [v % 128 + 128, v / 0x80 % 128 + 128, v / 0x4000];
    } else if v < 0x1000_0000 {
      Varint4(v);
      r := [v % 128 + 128, v / 0x80 % 128 + 128, v / 0x4000 % 128 + 128, v / 0x20_0000];
    } else {
      Varint5(v);
      r := [v % 128 + 128, v / 0x80 % 128 + 128, v / 0x4000 % 128 + 128, v / 0x20_0000 % 128 + 128, v / 0x1000_0000];
    }
  }

  lemma VarintByte(v: nat)
    requires v < 128
    ensures Varint(v) == [v]
  {
  }

  lemma VarintStep(v: nat)
    requires v >= 128
    ensures Varint(v) == [v % 128 + 128] + Varint(v / 128)
  {
  }

  /** The unrolled encoder, one case for each length. */
  lemma Varint2(v: nat)
    requires 0x80 <= v < 0x4000
    ensures Varint(v) == [v % 128 + 128, v / 0x80]
  {
    assert Varint(v / 128) == [v / 128];
  }

  lemma Varint3(v: nat)
    requires 0x4000 <= v < 0x20_0000
    ensures Varint(v) == [v % 128 + 128, v / 0x80 % 128 + 128, v / 0x4000]
  {
    hide Varint;
    VarintStep(v);
    Varint2(v / 128);
    assert v / 128 / 0x80 == v / 0x4000;
  }

  lemma Varint4(v: nat)
    requires 0x20_0000 <= v < 0x1000_0000
    ensures Varint(v) == [v % 128 + 128, v / 0x80 % 128 + 128, v / 0x4000 % 128 + 128, v / 0x20_0000]
  {
    hide Varint;
    VarintStep(v);
    Varint3(v / 128);
    assert v / 128 / 0x80 == v / 0x4000 && v / 128 / 0x4000 == v / 0x20_0000;
  }

  lemma Varint5(v: nat)
    requires 0x1000_0000 <= v < TWO_32
    ensures Varint(v) == [v % 128 + 128, v / 0x80 % 128 + 128, v / 0x4000 % 128 + 128, v / 0x20_0000 % 128 + 128,
                          v / 0x1000_0000]
  {
    hide Varint;
    VarintStep(v);
    Varint4(v / 128);
    assert v / 128 / 0x80 == v / 0x4000 && v / 128 / 0x4000 == v / 0x20_0000 && v / 128 / 0x20_0000 == v / 0x1000_0000;
  }

  method PutVarint64(dst: Bytes, v0: Word64) returns (r: Bytes)
    ensures r == dst + Varint(v0)
  {
    r := dst;
    var v: nat := v0;
    while v >= 128
      invariant r + Varint(v) == dst + Varint(v0)
    {
      assert Varint(v) == [v % 128 + 128] + Varint(v / 128);
      r := r + [v % 128 + 128];
      v := v / 128;
    }
    r := r + [v];
  }

  method PutVarint32(dst: Bytes, v: Word32) returns (r: Bytes)
    ensures r == dst + Varint(v)
  {
    var e := EncodeVarint32(v);
    r := dst + e;
  }

  /** The number of bytes that `PutVarint64` appends. */
  method VarintLength(v0: Word64) returns (n: nat)
    ensures n == |Varint(v0)|
  {
    var v: nat := v0;
    n := 1;
    while v >= 128
      invariant n + |Varint(v)| == 1 + |Varint(v0)|
    {
      v, n := v / 128, n + 1;
    }
  }

  /** The number in at most `limit` bytes at the front of the input, without regard to its width. */
  function ParseVarint(input: Bytes, limit: nat): (r: Parsed<nat>)
    ensures r.Parsed? ==> |r.rest| < |input| && r.rest == input[|input| - |r.rest|..]
  {
    if limit == 0 || input == [] then Malformed
    else if input[0] < 128 then Parsed(input[0], input[1..])
    else
      match ParseVarint(input[1..], limit - 1)
      case Malformed => Malformed
      case Parsed(v, rest) => Parsed(input[0] - 128 + 128 * v, rest)
  }

  /** Bits beyond the width are shifted out. */
  function Truncate(p: Parsed<nat>, width: nat): (r: Parsed<nat>)
    requires width > 0
  {
    match p
    case Malformed => Malformed
    case Parsed(v, rest) => Parsed(v % width, rest)
  }

  function GetVarint32(input: Bytes): (r: Parsed<Word32>)
    ensures r.Parsed? ==> |r.rest| < |input|
  {
    match ParseVarint(input, 5)
    case Malformed => Malformed
    case Parsed(v, rest) => Parsed(v % TWO_32, rest)
  }

  function GetVarint64(input: Bytes): (r: Parsed<Word64>)
    ensures r.Parsed? ==> |r.rest| < |input|
  {
    match ParseVarint(input, 10)
    case Malformed => Malformed
    case Parsed(v, rest) => Parsed(v % TWO_64, rest)
  }

  /** Decoding takes exactly the encoded bytes and leaves the rest alone. */
  lemma {:induction false} ParseVarintRoundTrip(v: nat, limit: nat, rest: Bytes)
    requires |Varint(v)| <= limit
    ensures ParseVarint(Varint(v) + rest, limit) == Parsed(v, rest)
  {
    if v < 128 {
      assert Varint(v) + rest == [v] + rest;
    } else {
      ParseVarintRoundTrip(v / 128, limit - 1, rest);
      assert (Varint(v) + rest)[1..] == Varint(v / 128) + rest;
    }
  }

  function Power128(n: nat): (p: nat)
    ensures p > 0
  {
    if n == 0 then 1 else 128 * Power128(n - 1)
  }

  lemma {:induction false} VarintSize(v: nat, n: nat)
    requires n > 0 && v < Power128(n)
    ensures |Varint(v)| <= n
  {
    if v >= 128 {
      VarintSize(v / 128, n - 1);
    }
  }

  lemma Varint32RoundTrip(v: Word32, rest: Bytes)
    ensures GetVarint32(Varint(v) + rest) == Parsed(v, rest)
  {
    hide Varint, ParseVarint;
    assert Power128(5) == 128 * (128 * (128 * (128 * (128 * Power128(0)))));
    VarintSize(v, 5);
    ParseVarintRoundTrip(v, 5, rest);
  }

  lemma Varint64RoundTrip(v: Word64, rest: Bytes)
    ensures GetVarint64(Varint(v) + rest) == Parsed(v, rest) && |Varint(v)| <= 10
  {
    hide Varint, ParseVarint;
    assert Power128(5) == 128 * (128 * (128 * (128 * (128 * Power128(0)))));
    assert Power128(10) == 128 * (128 * (128 * (128 * (128 * Power128(5)))));
    VarintSize(v, 10);
    ParseVarintRoundTrip(v, 10, rest);
  }

  /** The decoding loop: seven more bits each round, shifted into place and cut to the width. */
  method GetVarintPtr(input: Bytes, limit: nat, width: nat) returns (r: Parsed<nat>)
    requires width == TWO_32 || width == TWO_64
    ensures r == Truncate(ParseVarint(input, limit), width)
    ensures limit == 5 && width == TWO_32 ==> r == GetVarint32(input)
    ensures limit == 10 && width == TWO_64 ==> r == GetVarint64(input)
  {
    hide ParseVarint;
    var result: nat, shift: nat, p: nat := 0, 1, 0;
    ghost var whole: nat := 0;
    StartOfInput(input, limit);
    while p < limit && p < |input|
      invariant p <= |input| && p <= limit
      invariant result == whole % width
      invariant ParseVarint(input, limit) == Shifted(ParseVarint(input[p..], limit - p), whole, shift)
    {
      ParseStep(input, p, limit, whole, shift);
      var byte := input[p];
      var digit: nat := Scaled(byte % 128, shift);
      AddModulo(whole, digit, width);
      result := (result + digit) % width;
      p := p + 1;
      if byte < 128 {
        return Parsed(result, input[p..]);
      }
      whole := whole + digit;
      shift := Scaled(128, shift);
    }
    ParseEnd(input, p, limit);
    return Malformed;
  }

  /** `p` after the low digits `low`, which take up the places below `shift`. */
  ghost function Shifted(p: Parsed<nat>, low: nat, shift: nat): Parsed<nat> {
    match p
    case Malformed => Malformed
    case Parsed(v, rest) => Parsed(low + Scaled(v, shift), rest)
  }

  /** `v << k`, where `shift` is 2 to the `k`. */
  function Scaled(v: nat, shift: nat): nat {
    v * shift
  }

  lemma StartOfInput(input: Bytes, limit: nat)
    ensures ParseVarint(input, limit) == Shifted(ParseVarint(input[0..], limit - 0), 0, 1)
  {
    assert input[0..] == input;
  }

  lemma ParseEnd(input: Bytes, p: nat, limit: nat)
    requires p <= |input| && p <= limit && (p == |input| || p == limit)
    ensures ParseVarint(input[p..], limit - p) == Malformed
  {
  }

  /** One byte of the decoding loop. */
  lemma ParseStep(input: Bytes, p: nat, limit: nat, low: nat, shift: nat)
    requires p < limit && p < |input|
    ensures Shifted(ParseVarint(input[p..], limit - p), low, shift) ==
            if input[p] < 128 then Parsed(low + Scaled(input[p] % 128, shift), input[p + 1..])
            else Shifted(ParseVarint(input[p + 1..], limit - (p + 1)),
                         low + Scaled(input[p] % 128, shift), Scaled(128, shift))
  {
    assert input[p..][1..] == input[p + 1..];
    match ParseVarint(input[p + 1..], limit - (p + 1))
    case Malformed =>
    case Parsed(v, _) => Distribute(input[p] % 128, v, shift);
  }

  lemma Distribute(digit: nat, v: nat, shift: nat)
    ensures Scaled(digit + 128 * v, shift) == Scaled(digit, shift) + Scaled(v, Scaled(128, shift))
  {
  }

  lemma AddModulo(a: nat, b: nat, m: nat)
    requires m == TWO_32 || m == TWO_64
    ensures (a % m + b) % m == (a + b) % m
  {
  }

  /** The length, then the bytes. */
  function LengthPrefixed(s: Bytes): Bytes
    requires |s| < TWO_32
  {
    Varint(|s|) + s
  }

  function GetLengthPrefixedSlice(input: Bytes): (r: Parsed<Bytes>)
    ensures r.Parsed? ==> |r.rest| < |input|
  {
    match GetVarint32(input)
    case Malformed => Malformed
    case Parsed(n, rest) => if n <= |rest| then Parsed(rest[..n], rest[n..]) else Malformed
  }

  lemma LengthPrefixedRoundTrip(s: Bytes, rest: Bytes)
    requires |s| < TWO_32
    ensures GetLengthPrefixedSlice(LengthPrefixed(s) + rest) == Parsed(s, rest)
  {
    Varint32RoundTrip(|s|, s + rest);
    assert LengthPrefixed(s) + rest == Varint(|s|) + (s + rest);
  }
}
