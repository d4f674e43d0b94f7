/** The memtable as bytes (db/memtable.cc, db/dbformat.cc): how entries and lookup keys are laid out, in which
    order the table keeps them, and what a point lookup decodes. */
module MemTable {
  import opened Keys
  import opened Coding
  import opened Separators

  predicate FitsEntry(e: ByteEntry) {
    e.key.sequence <= MAX_SEQUENCE && |e.key.user| + 8 < TWO_32 && |e.value| < TWO_32
  }

  /** Both parts of an entry carry their lengths. */
  function EntryBytes(e: ByteEntry): Bytes
    requires FitsEntry(e)
  {
    LengthPrefixed(AppendInternalKey(e.key)) + LengthPrefixed(e.value)
  }

  /** What the table is searched for: the key part of an entry, without a value. */
  function LookupBytes(user: Bytes, snapshot: nat): Bytes
    requires |user| + 8 < TWO_32
  {
    LengthPrefixed(AppendInternalKey(ByteKey(user, snapshot, Value)))
  }

  /** The comparator of the table: of an entry or a lookup key, only the key part counts. */
  predicate EncodedBefore(a: Bytes, b: Bytes) {
    var ka, kb := GetLengthPrefixedSlice(a), GetLengthPrefixedSlice(b);
    ka.Parsed? && kb.Parsed? && |ka.value| >= 8 && |kb.value| >= 8 && EncodedLess(ka.value, kb.value)
  }

  lemma KeyPart(k: ByteKey, rest: Bytes)
    requires |k.user| + 8 < TWO_32
    ensures GetLengthPrefixedSlice(LengthPrefixed(AppendInternalKey(k)) + rest) == Parsed(AppendInternalKey(k), rest)
  {
    LengthPrefixedRoundTrip(AppendInternalKey(k), rest);
  }

  lemma ValuePart(value: Bytes)
    requires |value| < TWO_32
    ensures GetLengthPrefixedSlice(LengthPrefixed(value)) == Parsed(value, [])
  {
    LengthPrefixedRoundTrip(value, []);
    assert LengthPrefixed(value) + [] == LengthPrefixed(value);
  }

  /** The table's order is the internal-key order. */
  lemma BeforeIsLess(a: ByteKey, resta: Bytes, b: ByteKey, restb: Bytes)
    requires |a.user| + 8 < TWO_32 && |b.user| + 8 < TWO_32 && a.sequence <= MAX_SEQUENCE && b.sequence <= MAX_SEQUENCE
    ensures EncodedBefore(LengthPrefixed(AppendInternalKey(a)) + resta, LengthPrefixed(AppendInternalKey(b)) + restb)
            <==> Less(Ranked(a), Ranked(b))
  {
    hide EncodedLess, Less, GetLengthPrefixedSlice, LengthPrefixed;
    KeyPart(a, resta);
    KeyPart(b, restb);
    EncodingKeepsOrder(a, b);
  }

  ghost predicate InKeyOrder(entries: seq<ByteEntry>) {
    forall i, j :: 0 <= i < j < |entries| ==> Less(Ranked(entries[i].key), Ranked(entries[j].key))
  }

  /** `table` is `entries` in bytes. */
  ghost predicate Holds(table: seq<Bytes>, entries: seq<ByteEntry>) {
    |table| == |entries| && forall i :: 0 <= i < |table| ==> FitsEntry(entries[i]) && table[i] == EntryBytes(entries[i])
  }

  ghost predicate SeenBy(e: ByteEntry, user: Bytes, snapshot: nat) {
    e.key.user == user && e.key.sequence <= snapshot
  }

  datatype GetResult = Found(value: Bytes) | Deleted | Absent

  /** The newest entry of the user key that the snapshot can see decides. */
  ghost predicate Answers(entries: seq<ByteEntry>, user: Bytes, snapshot: nat, r: GetResult) {
    if r.Absent? then forall e :: e in entries ==> !SeenBy(e, user, snapshot)
    else
      exists n :: n in entries && SeenBy(n, user, snapshot)
                  && (forall e :: e in entries && SeenBy(e, user, snapshot) ==> e.key.sequence <= n.key.sequence)
                  && r == if n.key.kind.Value? then Found(n.value) else Deleted
  }

  class MemTable {
    /** The contents of the skip list, in its order. */
    var table: seq<Bytes>
    ghost var entries: seq<ByteEntry>

    ghost predicate Valid()
      reads this
    {
      Holds(table, entries) && InKeyOrder(entries)
    }

    constructor ()
      ensures Valid() && entries == []
    {
      table, entries := [], [];
    }

    /** Position of the first entry not before the given one. */
    method FindGreaterOrEqual(target: Bytes, ghost k: ByteKey, ghost rest: Bytes) returns (i: nat)
      requires Valid() && |k.user| + 8 < TWO_32 && k.sequence <= MAX_SEQUENCE
      requires target == LengthPrefixed(AppendInternalKey(k)) + rest
      ensures i <= |entries| == |table|
      ensures forall j :: 0 <= j < i ==> Less(Ranked(entries[j].key), Ranked(k))
      ensures forall j :: i <= j < |entries| ==> !Less(Ranked(entries[j].key), Ranked(k))
    {
      hide EncodedBefore, Less, AppendInternalKey, LengthPrefixed;
      i := 0;
      while i < |table| && EncodedBefore(table[i], target)
        invariant 0 <= i <= |table|
        invariant forall j :: 0 <= j < i ==> Less(Ranked(entries[j].key), Ranked(k))
      {
        BeforeIsLess(entries[i].key, LengthPrefixed(entries[i].value), k, rest);
        i := i + 1;
      }
      if i < |table| {
        BeforeIsLess(entries[i].key, LengthPrefixed(entries[i].value), k, rest);
        LaterNotLess(entries, i, k);
      }
    }

    /** Puts one entry into the table, at its place. */
    method Add(sequence: nat, kind: ValueType, key: Bytes, value: Bytes)
      requires Valid() && FitsEntry(ByteEntry(ByteKey(key, sequence, kind), value))
      requires forall e :: e in entries ==> e.key != ByteKey(key, sequence, kind)
      modifies this
      ensures Valid()
      ensures forall e :: e in entries <==> e in old(entries) || e == ByteEntry(ByteKey(key, sequence, kind), value)
    {
      hide EncodedBefore, Less, InKeyOrder, Varint;
      ghost var k := ByteKey(key, sequence, kind);
      ghost var e := ByteEntry(k, value);
      var length := EncodeVarint32(|key| + 8);
      var buf := length + key + Fixed(sequence * 256 + (if kind.Value? then 1 else 0), 8);
      var valueLength := EncodeVarint32(|value|);
      buf := buf + valueLength + value;
      EntryInParts(length, valueLength, e);
      var i := FindGreaterOrEqual(buf, k, LengthPrefixed(value));
      InsertedInOrder(entries, e, i);
      InsertedHolds(table, entries, e, i);
      table := table[..i] + [buf] + table[i..];
      entries := entries[..i] + [e] + entries[i..];
    }

    /** Seeks the lookup key, and looks at the one entry that it leads to. */
    method Get(user: Bytes, snapshot: nat) returns (r: GetResult)
      requires Valid() && |user| + 8 < TWO_32 && snapshot <= MAX_SEQUENCE
      ensures Answers(entries, user, snapshot, r)
    {
      hide EncodedBefore, Less, InKeyOrder, EncodedLess, LengthPrefixed, GetLengthPrefixedSlice, Fixed, Answers, AppendInternalKey;
      var memkey := LookupBytes(user, snapshot);
      assert memkey == memkey + [];
      var i := FindGreaterOrEqual(memkey, ByteKey(user, snapshot, Value), []);
      if i == |table| {
        SeekAnswers(entries, i, user, snapshot);
        return Absent;
      }
      ghost var e := entries[i];
      SeekAnswers(entries, i, user, snapshot);
      KeyPart(e.key, LengthPrefixed(e.value));
      KeyParts(e.key);
      var key := GetLengthPrefixedSlice(table[i]);
      if key.value[..|key.value| - 8] != user {
        return Absent;
      }
      var tag := FixedValue(key.value[|key.value| - 8..]);
      if tag % 256 == 1 {
        ValuePart(e.value);
        return Found(GetLengthPrefixedSlice(key.rest).value);
      }
      return Deleted;
    }
  }

  lemma LaterNotLess(entries: seq<ByteEntry>, i: nat, k: ByteKey)
    requires InKeyOrder(entries) && i < |entries| && !Less(Ranked(entries[i].key), Ranked(k))
    ensures forall j :: i <= j < |entries| ==> !Less(Ranked(entries[j].key), Ranked(k))
  {
    forall j | i <= j < |entries| ensures !Less(Ranked(entries[j].key), Ranked(k)) {
      assert i < j ==> Less(Ranked(entries[i].key), Ranked(entries[j].key));
    }
  }

  lemma EntryInParts(length: Bytes, valueLength: Bytes, e: ByteEntry)
    requires FitsEntry(e) && length == Varint(|e.key.user| + 8) && valueLength == Varint(|e.value|)
    ensures length + e.key.user + Fixed(Pack(e.key.sequence, e.key.kind), 8) + valueLength + e.value == EntryBytes(e)
    ensures EntryBytes(e) == LengthPrefixed(AppendInternalKey(e.key)) + LengthPrefixed(e.value)
  {
    hide Varint, Fixed;
  }

  lemma DistinctAreOrdered(a: ByteKey, b: ByteKey)
    requires a != b
    ensures Less(Ranked(a), Ranked(b)) || Less(Ranked(b), Ranked(a))
  {
    hide Rank;
    RankOrdersStrings(a.user, b.user);
  }

  lemma InsertedInOrder(entries: seq<ByteEntry>, e: ByteEntry, i: nat)
    requires InKeyOrder(entries) && i <= |entries| && forall x :: x in entries ==> x.key != e.key
    requires forall j :: 0 <= j < i ==> Less(Ranked(entries[j].key), Ranked(e.key))
    requires forall j :: i <= j < |entries| ==> !Less(Ranked(entries[j].key), Ranked(e.key))
    ensures InKeyOrder(entries[..i] + [e] + entries[i..])
  {
    hide Less;
    var more := entries[..i] + [e] + entries[i..];
    forall j | i <= j < |entries| ensures Less(Ranked(e.key), Ranked(entries[j].key)) {
      DistinctAreOrdered(entries[j].key, e.key);
    }
    assert forall j :: 0 <= j < |more| ==> more[j] == if j < i then entries[j] else if j == i then e else entries[j - 1];
  }

  lemma InsertedHolds(table: seq<Bytes>, entries: seq<ByteEntry>, e: ByteEntry, i: nat)
    requires Holds(table, entries) && FitsEntry(e) && i <= |entries|
    ensures Holds(table[..i] + [EntryBytes(e)] + table[i..], entries[..i] + [e] + entries[i..])
    ensures forall x :: x in entries[..i] + [e] + entries[i..] <==> x in entries || x == e
  {
    hide EntryBytes;
    assert entries == entries[..i] + entries[i..];
  }

  lemma KeyParts(k: ByteKey)
    requires k.sequence <= MAX_SEQUENCE
    ensures var s := AppendInternalKey(k);
            && |s| >= 8 && s[..|s| - 8] == k.user
            && FixedValue(s[|s| - 8..]) == Pack(k.sequence, k.kind)
            && (FixedValue(s[|s| - 8..]) % 256 == 1 <==> k.kind.Value?)
  {
    hide Fixed, FixedValue;
    PackFits(k);
    var s := AppendInternalKey(k);
    assert s[|s| - 8..] == Fixed(Pack(k.sequence, k.kind), 8);
  }

  /** The entry that the lookup key leads to answers, if it is of the user key; otherwise nothing does. */
  lemma SeekAnswers(entries: seq<ByteEntry>, i: nat, user: Bytes, snapshot: nat)
    requires InKeyOrder(entries) && i <= |entries|
    requires forall j :: 0 <= j < i ==> Less(Ranked(entries[j].key), Ranked(ByteKey(user, snapshot, Value)))
    requires forall j :: i <= j < |entries| ==> !Less(Ranked(entries[j].key), Ranked(ByteKey(user, snapshot, Value)))
    ensures i == |entries| || entries[i].key.user != user ==> Answers(entries, user, snapshot, Absent)
    ensures i < |entries| && entries[i].key.user == user ==>
              Answers(entries, user, snapshot, if entries[i].key.kind.Value? then Found(entries[i].value) else Deleted)
  {
    hide Rank;
    forall j | 0 <= j < i ensures !SeenBy(entries[j], user, snapshot) {
    }
    forall j | i < j < |entries| && SeenBy(entries[j], user, snapshot)
      ensures entries[i].key.user == user && entries[j].key.sequence <= entries[i].key.sequence
    {
      RankOrdersStrings(entries[i].key.user, user);
      assert Less(Ranked(entries[i].key), Ranked(entries[j].key));
    }
    if i < |entries| && entries[i].key.user == user {
      assert entries[i] in entries && SeenBy(entries[i], user, snapshot);
    }
  }
}
