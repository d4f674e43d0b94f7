/** Internal keys as bytes, and the short keys that go between two others (util/comparator.cc,
    db/dbformat.h, db/dbformat.cc). */
module Separators {
  import opened Keys
  import opened Coding
  import opened Block

  /** An internal key whose user key is a string under the bytewise comparator. */
  datatype ByteKey = ByteKey(user: Bytes, sequence: nat, kind: ValueType)

  ghost function Ranked(k: ByteKey): InternalKey {
    InternalKey(Rank(k.user), k.sequence, k.kind)
  }

  datatype ByteEntry = ByteEntry(key: ByteKey, value: Bytes)

  ghost function RankedEntry(e: ByteEntry): Entry {
    Entry(Ranked(e.key), e.value)
  }

  function AppendInternalKey(k: ByteKey): Bytes {
    k.user + Fixed(Pack(k.sequence, k.kind), 8)
  }

  /** The key in a string, if the string is one. */
  function ParseInternalKey(s: Bytes): Option<ByteKey> {
    if |s| < 8 then None
    else
      var num := FixedValue(s[|s| - 8..]);
      if num % 256 > 1 then None
      else Some(ByteKey(s[..|s| - 8], num / 256, if num % 256 == 1 then Value else Deletion))
  }

  lemma InternalKeyRoundTrip(k: ByteKey)
    requires k.sequence <= MAX_SEQUENCE
    ensures ParseInternalKey(AppendInternalKey(k)) == Some(k)
  {
    hide Fixed;
    var s := AppendInternalKey(k);
    assert s[|s| - 8..] == Fixed(Pack(k.sequence, k.kind), 8) && s[..|s| - 8] == k.user;
    PackFits(k);
  }

  lemma PackFits(k: ByteKey)
    requires k.sequence <= MAX_SEQUENCE
    ensures FixedValue(Fixed(Pack(k.sequence, k.kind), 8)) == Pack(k.sequence, k.kind)
  {
    assert Power256(4) == 256 * (256 * (256 * (256 * Power256(0))));
    assert Power256(8) == 256 * (256 * (256 * (256 * Power256(4))));
    FixedRoundTrip(Pack(k.sequence, k.kind), 8);
  }

  /** The comparator on encoded keys. */
  predicate EncodedLess(a: Bytes, b: Bytes)
    requires |a| >= 8 && |b| >= 8
  {
    var ua, ub := a[..|a| - 8], b[..|b| - 8];
    LexLess(ua, ub) || (ua == ub && FixedValue(a[|a| - 8..]) > FixedValue(b[|b| - 8..]))
  }

  /** Comparing encodings is comparing keys, which the other modules do on places in the order. */
  lemma EncodingKeepsOrder(a: ByteKey, b: ByteKey)
    requires a.sequence <= MAX_SEQUENCE && b.sequence <= MAX_SEQUENCE
    ensures EncodedLess(AppendInternalKey(a), AppendInternalKey(b)) <==> Less(Ranked(a), Ranked(b))
  {
    hide Fixed;
    var s, t := AppendInternalKey(a), AppendInternalKey(b);
    assert s[..|s| - 8] == a.user && t[..|t| - 8] == b.user;
    assert s[|s| - 8..] == Fixed(Pack(a.sequence, a.kind), 8) && t[|t| - 8..] == Fixed(Pack(b.sequence, b.kind), 8);
    PackFits(a);
    PackFits(b);
    RankOrdersStrings(a.user, b.user);
    RankOrdersStrings(b.user, a.user);
  }

  lemma {:induction false} FirstDifferenceDecides(a: Bytes, b: Bytes, i: nat)
    requires i < |a| && i < |b| && a[..i] == b[..i] && a[i] < b[i]
    ensures LexLess(a, b)
  {
    if i > 0 {
      assert a[0] == a[..i][0] == b[..i][0] == b[0];
      assert a[1..][..i - 1] == a[..i][1..] == b[..i][1..] == b[1..][..i - 1];
      FirstDifferenceDecides(a[1..], b[1..], i - 1);
    }
  }

  /** Cuts `start` after its first difference from `limit` if there is a byte between the two there;
      whatever the arguments, a changed string lies strictly between them. */
  method FindShortestSeparator(start: Bytes, limit: Bytes) returns (r: Bytes)
    ensures r == start || (LexLess(start, r) && LexLess(r, limit))
    ensures var d := CommonPrefix(start, limit);
            if d < |start| && d < |limit| && start[d] < 0xff && start[d] + 1 < limit[d]
            then r == start[..d] + [start[d] + 1] else r == start
  {
    var minLength := if |start| < |limit| then |start| else |limit|;
    var diffIndex := 0;
    while diffIndex < minLength && start[diffIndex] == limit[diffIndex]
      invariant 0 <= diffIndex <= minLength && start[..diffIndex] == limit[..diffIndex]
    {
      diffIndex := diffIndex + 1;
    }
    LongestPrefix(start, limit, diffIndex);
    r := start;
    if diffIndex >= minLength {
    } else {
      var diffByte := start[diffIndex];
      if diffByte < 0xff && diffByte + 1 < limit[diffIndex] {
        r := start[..diffIndex] + [diffByte + 1];
        FirstDifferenceDecides(start, r, diffIndex);
        FirstDifferenceDecides(r, limit, diffIndex);
      }
    }
  }

  /** How many bytes 0xff the string starts with. */
  function LeadingFs(key: Bytes): (n: nat)
    ensures n <= |key| && forall i :: 0 <= i < n ==> key[i] == 0xff
    ensures n < |key| ==> key[n] != 0xff
  {
    if key == [] || key[0] != 0xff then 0 else LeadingFs(key[1..]) + 1
  }

  /** Cuts `key` after the first byte that can be raised; a changed string is larger than the key, and
      the key stays only if it is a run of 0xff. */
  method FindShortSuccessor(key: Bytes) returns (r: Bytes)
    ensures r == key || (LexLess(key, r) && |r| <= |key|)
    ensures r == key <==> forall i :: 0 <= i < |key| ==> key[i] == 0xff
    ensures var i := LeadingFs(key); i < |key| ==> key[i] < 0xff && r == key[..i] + [key[i] + 1]
  {
    for i := 0 to |key|
      invariant forall j :: 0 <= j < i ==> key[j] == 0xff
    {
      var byte := key[i];
      if byte != 0xff {
        r := key[..i] + [byte + 1];
        FirstDifferenceDecides(key, r, i);
        assert r[i] != key[i];
        assert LeadingFs(key) == i;
        return r;
      }
    }
    return key;
  }

  /** A key from the last key of one block up to, but not including, the first key of the next. It has
      the user key of the latter only if it is the former. */
  ghost predicate Between(start: InternalKey, r: InternalKey, limit: InternalKey) {
    r == start || (start.user < r.user < limit.user)
  }

  /** Shortened where there is room for a byte between the two keys at their first difference and something to
      cut off behind it; else the first key itself. */
  ghost predicate IsSeparator(start: ByteKey, limit: ByteKey, r: ByteKey) {
    var d := CommonPrefix(start.user, limit.user);
    if d + 1 < |start.user| && d < |limit.user| && start.user[d] < 0xff && start.user[d] + 1 < limit.user[d]
    then r == ByteKey(start.user[..d] + [start.user[d] + 1], 0xFF_FFFF_FFFF_FFFF, Value) else r == start
  }

  /** Shortened behind the first byte that can be raised, if there is something to cut off. */
  ghost predicate IsSuccessor(key: ByteKey, r: ByteKey) {
    var i := LeadingFs(key.user);
    if i + 1 < |key.user|
    then key.user[i] < 0xff && r == ByteKey(key.user[..i] + [key.user[i] + 1], 0xFF_FFFF_FFFF_FFFF, Value) else r == key
  }

  /** The separator of internal keys: the shortened user key with the number that comes first. */
  method InternalSeparator(start: ByteKey, limit: ByteKey) returns (r: ByteKey)
    ensures Between(Ranked(start), Ranked(r), Ranked(limit))
    ensures r != start ==> |r.user| < |start.user|
    ensures IsSeparator(start, limit, r)
  {
    var tmp := FindShortestSeparator(start.user, limit.user);
    if |tmp| < |start.user| && LexLess(start.user, tmp) {
      RankOrdersStrings(start.user, tmp);
      RankOrdersStrings(tmp, limit.user);
      return ByteKey(tmp, MAX_SEQUENCE, Value);
    }
    return start;
  }

  method InternalSuccessor(key: ByteKey) returns (r: ByteKey)
    ensures Ranked(r) == Ranked(key) || Ranked(key).user < Ranked(r).user
    ensures r != key ==> |r.user| < |key.user|
    ensures IsSuccessor(key, r)
  {
    var tmp := FindShortSuccessor(key.user);
    if |tmp| < |key.user| && LexLess(key.user, tmp) {
      RankOrdersStrings(key.user, tmp);
      return ByteKey(tmp, MAX_SEQUENCE, Value);
    }
    return key;
  }
}
