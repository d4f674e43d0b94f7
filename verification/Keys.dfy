/** Keys of the store: byte strings, their order, and internal keys (db/dbformat.h, db/dbformat.cc). */
module Keys {

  /** One byte, as an unsigned number. */
  type Byte = x: int | 0 <= x < 256

  type Bytes = seq<Byte>

  datatype Option<+T> = None | Some(value: T)

  /** A user key, given by its place in the comparator's total order. A comparator orders countably
      many strings, so its order always fits into the reals; for the bytewise comparator the fit is
      `Rank` below. */
  type UserKey = real

  datatype ValueType = Deletion | Value

  /** 2^56 - 1: the low eight bits of a packed key hold the type. */
  const MAX_SEQUENCE: nat := 0xFF_FFFF_FFFF_FFFF

  datatype InternalKey = InternalKey(user: UserKey, sequence: nat, kind: ValueType)

  datatype Entry = Entry(key: InternalKey, value: Bytes)

  /** The bytewise order on strings: the first difference decides, a proper prefix comes first. */
  predicate LexLess(a: Bytes, b: Bytes) {
    b != [] && (a == [] || a[0] < b[0] || (a[0] == b[0] && LexLess(a[1..], b[1..])))
  }

  /** A string's place among the reals: digits 1..256 in base 257 after the point. */
  ghost function Rank(s: Bytes): (r: UserKey)
    ensures 0.0 <= r < 1.0
    ensures s != [] ==> r > 0.0
  {
    if s == [] then 0.0 else (s[0] as real + 1.0 + Rank(s[1..])) / 257.0
  }

  /** The bytewise order is the order of the ranks, and distinct strings have distinct ranks. So
      every statement about `UserKey` below holds of byte strings under the bytewise comparator. */
  lemma {:induction false} RankOrdersStrings(a: Bytes, b: Bytes)
    ensures LexLess(a, b) <==> Rank(a) < Rank(b)
    ensures Rank(a) == Rank(b) ==> a == b
  {
    if a != [] && b != [] {
      RankOrdersStrings(a[1..], b[1..]);
      assert a == [a[0]] + a[1..] && b == [b[0]] + b[1..];
    }
  }

  lemma LexTotal(a: Bytes, b: Bytes)
    ensures LexLess(a, b) || a == b || LexLess(b, a)
    ensures !(LexLess(a, b) && LexLess(b, a)) && !LexLess(a, a)
  {
    RankOrdersStrings(a, b);
    RankOrdersStrings(b, a);
    RankOrdersStrings(a, a);
  }

  function TypeByte(kind: ValueType): nat {
    if kind.Value? then 1 else 0
  }

  /** The 64-bit number stored after the user key: sequence number above, type below. */
  function Pack(sequence: nat, kind: ValueType): nat {
    sequence * 256 + TypeByte(kind)
  }

  /** The internal key order: user key upwards, then sequence number (and type) downwards. */
  predicate Less(a: InternalKey, b: InternalKey) {
    a.user < b.user || (a.user == b.user && Pack(a.sequence, a.kind) > Pack(b.sequence, b.kind))
  }

  /** The seek key for `user` at `snapshot`: it comes before exactly the entries of `user` that the
      snapshot can see, and after the newer ones. */
  function LookupKey(user: UserKey, snapshot: nat): InternalKey {
    InternalKey(user, snapshot, Value)
  }

  /** Entries in strictly increasing internal-key order. */
  ghost predicate Sorted(es: seq<Entry>) {
    forall i, j :: 0 <= i < j < |es| ==> Less(es[i].key, es[j].key)
  }

  /** Index of the first entry at or after `key`. */
  function SeekIndex(es: seq<Entry>, key: InternalKey): (r: nat)
    ensures r <= |es|
    ensures forall i :: 0 <= i < r ==> Less(es[i].key, key)
    ensures r < |es| ==> !Less(es[r].key, key)
  {
    if es == [] || !Less(es[0].key, key) then 0
    else
      var rest := SeekIndex(es[1..], key);
      assert forall i :: 0 < i < rest + 1 ==> es[i] == es[1..][i - 1];
      rest + 1
  }
}
