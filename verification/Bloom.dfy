/** The Bloom filter policy (util/bloom.cc). The hash is any function from keys to 32-bit words. */
module Bloom {
  import opened Keys
  import opened Coding
  import opened Numbers

  function Power2(n: nat): (p: nat)
    ensures p > 0
  {
    if n == 0 then 1 else 2 * Power2(n - 1)
  }

  /** Bit `i`, counted from the least significant one. */
  predicate HasBit(b: nat, i: nat) {
    if i == 0 then b % 2 == 1 else HasBit(b / 2, i - 1)
  }

  /** Halving `i` times brings the bit to the end. */
  lemma {:induction false} BitHasWeight(b: nat, i: nat)
    ensures HasBit(b, i) <==> b / Power2(i) % 2 == 1
  {
    if i > 0 {
      BitHasWeight(b / 2, i - 1);
      DivideTwice(b, 2, Power2(i - 1));
    }
  }

  /** `b | 1 << i`. */
  function WithBit(b: nat, i: nat): nat {
    if i == 0 then (if b % 2 == 1 then b else b + 1) else 2 * WithBit(b / 2, i - 1) + b % 2
  }

  lemma {:induction false} BitIsSet(b: nat, i: nat, n: nat)
    requires b < Power2(n) && i < n
    ensures HasBit(WithBit(b, i), i) && WithBit(b, i) < Power2(n)
  {
    if i > 0 {
      BitIsSet(b / 2, i - 1, n - 1);
    }
  }

  lemma {:induction false} OtherBitsStay(b: nat, i: nat, j: nat)
    requires i != j
    ensures HasBit(WithBit(b, i), j) == HasBit(b, j)
  {
    if i > 0 && j > 0 {
      OtherBitsStay(b / 2, i - 1, j - 1);
    }
  }

  function ByteWithBit(b: Byte, i: nat): (r: Byte)
    requires i < 8
    ensures r == WithBit(b, i)
  {
    assert Power2(8) == 256 by {
      assert Power2(4) == 2 * (2 * (2 * (2 * Power2(0))));
      assert Power2(8) == 2 * (2 * (2 * (2 * Power2(4))));
    }
    BitIsSet(b, i, 8);
    WithBit(b, i)
  }

  /** Bit `p` of a bit array. */
  predicate IsSet(bits: Bytes, p: nat)
    requires p < 8 * |bits|
  {
    HasBit(bits[p / 8], p % 8)
  }

  ghost predicate BitsAre(bits: Bytes, s: set<nat>) {
    forall p: nat :: p < 8 * |bits| ==> (IsSet(bits, p) <==> p in s)
  }

  lemma SetOne(bits: Bytes, s: set<nat>, p: nat)
    requires BitsAre(bits, s) && p < 8 * |bits|
    ensures BitsAre(bits[p / 8 := ByteWithBit(bits[p / 8], p % 8)], s + {p})
  {
    hide HasBit, WithBit;
    assert Power2(8) == 256 by {
      assert Power2(4) == 2 * (2 * (2 * (2 * Power2(0))));
      assert Power2(8) == 2 * (2 * (2 * (2 * Power2(4))));
    }
    BitIsSet(bits[p / 8], p % 8, 8);
    var bits1 := bits[p / 8 := ByteWithBit(bits[p / 8], p % 8)];
    forall q: nat | q < 8 * |bits1| ensures IsSet(bits1, q) <==> q in s + {p} {
      assert IsSet(bits, q) <==> q in s;
      if q / 8 == p / 8 && q % 8 != p % 8 {
        OtherBitsStay(bits[p / 8], p % 8, q % 8);
      }
    }
  }

  lemma NoBits(bits: Bytes)
    requires forall i :: 0 <= i < |bits| ==> bits[i] == 0
    ensures BitsAre(bits, {})
  {
    forall i: nat ensures !HasBit(0, i) {
      ZeroHasNone(i);
    }
  }

  lemma {:induction false} ZeroHasNone(i: nat)
    ensures !HasBit(0, i)
  {
    if i > 0 {
      ZeroHasNone(i - 1);
    }
  }

  /** Rotate right by 17 bits. */
  function Delta(h: Word32): Word32 {
    h / 0x2_0000 + h % 0x2_0000 * 0x8000
  }

  /** The first `k` positions of the double hashing sequence from `h` on, wrapping at 32 bits. */
  ghost function Probes(h: Word32, delta: Word32, bits: nat, k: nat): set<nat>
    requires bits > 0
    decreases k
  {
    if k == 0 then {} else {h % bits} + Probes((h + delta) % TWO_32, delta, bits, k - 1)
  }

  ghost function KeyProbes(hash: Bytes -> Word32, key: Bytes, bits: nat, k: nat): set<nat>
    requires bits > 0
  {
    Probes(hash(key), Delta(hash(key)), bits, k)
  }

  ghost function AllProbes(hash: Bytes -> Word32, keys: seq<Bytes>, bits: nat, k: nat): set<nat>
    requires bits > 0
  {
    if keys == [] then {}
    else AllProbes(hash, keys[..|keys| - 1], bits, k) + KeyProbes(hash, keys[|keys| - 1], bits, k)
  }

  lemma {:induction false} ProbesOfMember(hash: Bytes -> Word32, keys: seq<Bytes>, bits: nat, k: nat, key: Bytes)
    requires bits > 0 && key in keys
    ensures KeyProbes(hash, key, bits, k) <= AllProbes(hash, keys, bits, k)
  {
    if key != keys[|keys| - 1] {
      ProbesOfMember(hash, keys[..|keys| - 1], bits, k, key);
    }
  }

  lemma {:induction false} ProbesInRange(h: Word32, delta: Word32, bits: nat, k: nat)
    requires bits > 0
    ensures forall p :: p in Probes(h, delta, bits, k) ==> p < bits
    decreases k
  {
    if k > 0 {
      ProbesInRange((h + delta) % TWO_32, delta, bits, k - 1);
    }
  }

  /** Rotating left by 17 bits turns it back. */
  lemma DeltaRotates(h: Word32)
    ensures h == Delta(h) % 0x8000 * 0x2_0000 + Delta(h) / 0x8000
  {
  }

  /** Probe `j` is at the hash plus `j` times its rotation, wrapped at 32 bits, modulo the number of bits. */
  lemma {:induction false} ProbeAt(h: Word32, delta: Word32, bits: nat, k: nat, p: nat)
    requires bits > 0
    ensures p in Probes(h, delta, bits, k) <==> exists j: nat :: j < k && p == Position(h, delta, bits, j)
    decreases k
  {
    hide Probes, Position;
    if k == 0 {
      LastProbe(h, delta, bits);
    } else {
      var h1: Word32 := (h + delta) % TWO_32;
      OneProbe(h, delta, bits, k);
      ProbeAt(h1, delta, bits, k - 1, p);
      FirstPosition(h, delta, bits);
      forall j: nat ensures Position(h1, delta, bits, j) == Position(h, delta, bits, j + 1) {
        NextPosition(h, delta, bits, j);
      }
      if j: nat :| j < k && p == Position(h, delta, bits, j) && j > 0 {
        assert p == Position(h1, delta, bits, j - 1);
      }
    }
  }

  ghost function Position(h: Word32, delta: Word32, bits: nat, j: nat): nat
    requires bits > 0
  {
    (h + j * delta) % 0x1_0000_0000 % bits
  }

  lemma FirstPosition(h: Word32, delta: Word32, bits: nat)
    requires bits > 0
    ensures Position(h, delta, bits, 0) == h % bits
  {
  }

  lemma NextPosition(h: Word32, delta: Word32, bits: nat, j: nat)
    requires bits > 0
    ensures Position((h + delta) % TWO_32, delta, bits, j) == Position(h, delta, bits, j + 1)
  {
    var more, wraps := j * delta, (h + delta) / TWO_32;
    assert (j + 1) * delta == more + delta;
    WrapsAway((h + delta) % TWO_32 + more, wraps);
  }

  lemma WrapsAway(x: nat, n: nat)
    ensures (x + n * 0x1_0000_0000) % 0x1_0000_0000 == x % 0x1_0000_0000
  {
  }

  ghost predicate AllSet(bits: Bytes, s: set<nat>) {
    forall p :: p in s && p < 8 * |bits| ==> IsSet(bits, p)
  }

  /** A filter says maybe exactly when all positions of the key are set. */
  ghost predicate MayMatch(hash: Bytes -> Word32, key: Bytes, filter: Bytes) {
    && |filter| >= 2
    && (filter[|filter| - 1] > 30
        || AllSet(filter[..|filter| - 1], KeyProbes(hash, key, 8 * (|filter| - 1), filter[|filter| - 1])))
  }

  /** `filter` has as many probes as it says, and the bits set in it are exactly those the keys ask for. */
  ghost predicate FilterOf(hash: Bytes -> Word32, keys: seq<Bytes>, filter: Bytes, k: nat) {
    && |filter| >= 2 && filter[|filter| - 1] == k <= 30
    && BitsAre(filter[..|filter| - 1], AllProbes(hash, keys, 8 * (|filter| - 1), k))
  }

  /** No false negatives. */
  lemma KeysMatch(hash: Bytes -> Word32, keys: seq<Bytes>, filter: Bytes, k: nat, key: Bytes)
    requires FilterOf(hash, keys, filter, k) && key in keys
    ensures MayMatch(hash, key, filter)
  {
    ProbesOfMember(hash, keys, 8 * (|filter| - 1), k, key);
  }

  class BloomFilterPolicy {
    const bitsPerKey: nat
    const k: nat
    const hash: Bytes -> Word32

    ghost predicate Valid()
    {
      1 <= k <= 30
    }

    constructor (bitsPerKey: nat, hash: Bytes -> Word32)
      ensures Valid() && this.bitsPerKey == bitsPerKey && this.hash == hash
      ensures var probes := 69 * bitsPerKey / 100; k == if probes < 1 then 1 else if probes > 30 then 30 else probes
    {
      var probes := (bitsPerKey as real * 0.69).Floor;
      if probes < 1 {
        probes := 1;
      }
      if probes > 30 {
        probes := 30;
      }
      this.bitsPerKey, this.hash, this.k := bitsPerKey, hash, probes;
    }

    /** Sets the bits of one key. */
    method SetProbes(filter: array<Byte>, key: Bytes, ghost s: set<nat>)
      requires filter.Length > 0 && BitsAre(filter[..], s)
      modifies filter
      ensures BitsAre(filter[..], s + KeyProbes(hash, key, 8 * filter.Length, k))
    {
      hide BitsAre, Probes, WithBit;
      var bits := 8 * filter.Length;
      var h: Word32 := hash(key);
      var delta := Delta(h);
      ghost var done: set<nat> := s;
      var j := 0;
      while j < k
        invariant 0 <= j <= k
        invariant BitsAre(filter[..], done) && done + Probes(h, delta, bits, k - j) == s + Probes(hash(key), delta, bits, k)
      {
        var bitpos := h % bits;
        SetOne(filter[..], done, bitpos);
        OneProbe(h, delta, bits, k - j);
        ghost var before := filter[..];
        filter[bitpos / 8] := ByteWithBit(filter[bitpos / 8], bitpos % 8);
        assert filter[..] == before[bitpos / 8 := ByteWithBit(before[bitpos / 8], bitpos % 8)];
        done := done + {bitpos};
        h := (h + delta) % TWO_32;
        j := j + 1;
      }
      LastProbe(h, delta, bits);
      assert done + {} == done;
    }

    method CreateFilter(keys: seq<Bytes>, dst: Bytes) returns (r: Bytes)
      requires Valid()
      ensures |r| >= |dst| && r[..|dst|] == dst && FilterOf(hash, keys, r[|dst|..], k)
      ensures var bytes := (|keys| * bitsPerKey + 7) / 8; |r| - |dst| - 1 == if bytes > 8 then bytes else 8
    {
      hide BitsAre, AllProbes, Probes;
      var bits := |keys| * bitsPerKey;
      if bits < 64 {
        bits := 64;
      }
      var bytes := (bits + 7) / 8;
      bits := bytes * 8;
      var filter := new Byte[bytes](_ => 0);
      NoBits(filter[..]);
      ghost var s: set<nat> := {};
      NoProbes(hash, bits, k);
      for i := 0 to |keys|
        invariant fresh(filter) && filter.Length == bytes
        invariant BitsAre(filter[..], s) && s == AllProbes(hash, keys[..i], bits, k)
      {
        SetProbes(filter, keys[i], s);
        s := s + KeyProbes(hash, keys[i], bits, k);
        MoreProbes(hash, keys, i, bits, k);
      }
      assert keys[..|keys|] == keys;
      r := dst + filter[..] + [k];
      assert r[|dst|..] == filter[..] + [k] && r[|dst|..][..bytes] == filter[..];
    }

    method KeyMayMatch(key: Bytes, filter: Bytes) returns (r: bool)
      ensures r <==> MayMatch(hash, key, filter)
    {
      hide IsSet;
      var len := |filter|;
      if len < 2 {
        return false;
      }
      var bits := (len - 1) * 8;
      var probes := filter[len - 1];
      if probes > 30 {
        return true;
      }
      var h: Word32 := hash(key);
      var delta := Delta(h);
      ghost var all := KeyProbes(hash, key, bits, probes);
      ProbesInRange(h, delta, bits, probes);
      var j := 0;
      while j < probes
        invariant 0 <= j <= probes && Probes(h, delta, bits, probes - j) <= all
        invariant forall p :: p in all && p !in Probes(h, delta, bits, probes - j) && p < bits ==> IsSet(filter[..len - 1], p)
      {
        var bitpos := h % bits;
        OneProbe(h, delta, bits, probes - j);
        if !IsSet(filter[..len - 1], bitpos) {
          return false;
        }
        h := (h + delta) % TWO_32;
        j := j + 1;
      }
      LastProbe(h, delta, bits);
      return true;
    }
  }

  lemma NoProbes(hash: Bytes -> Word32, bits: nat, k: nat)
    requires bits > 0
    ensures AllProbes(hash, [], bits, k) == {}
  {
  }

  lemma OneProbe(h: Word32, delta: Word32, bits: nat, k: nat)
    requires bits > 0 && k > 0
    ensures Probes(h, delta, bits, k) == {h % bits} + Probes((h + delta) % TWO_32, delta, bits, k - 1)
  {
  }

  lemma LastProbe(h: Word32, delta: Word32, bits: nat)
    requires bits > 0
    ensures Probes(h, delta, bits, 0) == {}
  {
  }

  lemma MoreProbes(hash: Bytes -> Word32, keys: seq<Bytes>, i: nat, bits: nat, k: nat)
    requires bits > 0 && i < |keys|
    ensures AllProbes(hash, keys[..i + 1], bits, k) == AllProbes(hash, keys[..i], bits, k) + KeyProbes(hash, keys[i], bits, k)
  {
    assert keys[..i + 1][..i] == keys[..i];
  }
}
