/** The specification of the store: a map, and the list of operations applied to it. */
module History {
  import opened Keys
  import opened Versions
  import opened Compaction

  datatype Op = Put(user: UserKey, value: Bytes) | Delete(user: UserKey)

  /** The map after applying the operations in order. */
  ghost function MapAfter(h: seq<Op>): map<UserKey, Bytes> {
    if h == [] then map[]
    else
      var before := MapAfter(h[..|h| - 1]);
      match h[|h| - 1]
      case Put(k, v) => before[k := v]
      case Delete(k) => before - {k}
  }

  ghost function ReadAfter(h: seq<Op>, user: UserKey): Option<Bytes> {
    if user in MapAfter(h) then Some(MapAfter(h)[user]) else None
  }

  /** The entry that records an operation under its sequence number. */
  function EntryOf(op: Op, sequence: nat): Entry {
    match op
    case Put(k, v) => Entry(InternalKey(k, sequence, Value), v)
    case Delete(k) => Entry(InternalKey(k, sequence, Deletion), [])
  }

  /** Every entry records the operation its sequence number points to. */
  ghost predicate FromHistory(es: set<Entry>, h: seq<Op>) {
    forall e :: e in es ==> 1 <= e.key.sequence <= |h| && e == EntryOf(h[e.key.sequence - 1], e.key.sequence)
  }

  /** From `oldest` on, the newest visible entries read as the map did at that point of history. */
  ghost predicate ReadsMatch(es: set<Entry>, h: seq<Op>, oldest: nat) {
    forall user, s, r :: oldest <= s <= |h| && IsNewest(es, user, s, r) ==> ValueOf(r) == ReadAfter(h[..s], user)
  }

  lemma HistoryIsDistinct(es: set<Entry>, h: seq<Op>)
    requires FromHistory(es, h)
    ensures DistinctSequences(es)
  {
  }

  /** A reader always has an answer. */
  lemma {:induction false} NewestExists(es: set<Entry>, user: UserKey, snapshot: nat) returns (r: Option<Entry>)
    ensures IsNewest(es, user, snapshot, r)
  {
    if es == {} {
      r := None;
    } else {
      var e :| e in es;
      r := NewestExists(es - {e}, user, snapshot);
      if Visible(e, user, snapshot) && (r.None? || r.value.key.sequence < e.key.sequence) {
        r := Some(e);
      }
    }
  }

  /** One more operation, recorded in one more entry. */
  lemma AppendKeepsReads(es: set<Entry>, h: seq<Op>, oldest: nat, op: Op)
    requires FromHistory(es, h) && ReadsMatch(es, h, oldest) && oldest <= |h|
    ensures ReadsMatch(es + {EntryOf(op, |h| + 1)}, h + [op], oldest)
  {
    var e := EntryOf(op, |h| + 1);
    var h1 := h + [op];
    forall user, s, r | oldest <= s <= |h1| && IsNewest(es + {e}, user, s, r)
      ensures ValueOf(r) == ReadAfter(h1[..s], user)
    {
      if s <= |h| {
        assert h1[..s] == h[..s];
        assert IsNewest(es, user, s, r);
      } else {
        assert h1[..s] == h1 && h1[..|h1| - 1] == h && h[..|h|] == h;
        if op.user == user {
          assert e in es + {e} && Visible(e, user, s);
          assert r == Some(e);
        } else {
          assert IsNewest(es, user, |h|, r);
        }
      }
    }
  }

  lemma FromHistoryAppend(es: set<Entry>, h: seq<Op>, op: Op)
    requires FromHistory(es, h)
    ensures FromHistory(es + {EntryOf(op, |h| + 1)}, h + [op])
  {
  }

  /** A change no reader notices keeps the match. */
  lemma SameReadsMatch(es: set<Entry>, es1: set<Entry>, h: seq<Op>, oldest: nat)
    requires ReadsMatch(es, h, oldest)
    requires forall user, s :: s >= oldest ==> SameRead(es, es1, user, s)
    ensures ReadsMatch(es1, h, oldest)
  {
    forall user, s, r1 | oldest <= s <= |h| && IsNewest(es1, user, s, r1)
      ensures ValueOf(r1) == ReadAfter(h[..s], user)
    {
      var r := NewestExists(es, user, s);
      assert SameRead(es, es1, user, s);
    }
  }

  /** The new entry goes before all older entries of its user key. */
  lemma NewEntryIsAbove(es: set<Entry>, h: seq<Op>, op: Op)
    requires FromHistory(es, h)
    ensures Below({EntryOf(op, |h| + 1)}, es)
    ensures forall e :: e in es ==> e.key != EntryOf(op, |h| + 1).key
  {
  }
}
