/** The user-level iterator over a snapshot (db/db_iter.cc). */
module DbIter {
  import opened Keys
  import opened Versions
  import opened Compaction
  import opened History

  /** A cursor over a sorted run of entries; `pos == |es|` is the one invalid position. */
  class InternalIterator {
    const es: seq<Entry>
    var pos: nat

    constructor (es: seq<Entry>)
      ensures this.es == es && pos == |es|
    {
      this.es, pos := es, |es|;
    }

    predicate Valid()
      reads this
    {
      pos < |es|
    }

    method SeekToFirst()
      modifies this
      ensures pos == 0
    {
      pos := 0;
    }

    method SeekToLast()
      modifies this
      ensures pos == if |es| == 0 then 0 else |es| - 1
    {
      pos := if |es| == 0 then 0 else |es| - 1;
    }

    method Seek(key: InternalKey)
      modifies this
      ensures pos == SeekIndex(es, key)
    {
      pos := SeekIndex(es, key);
    }

    method Next()
      requires Valid()
      modifies this
      ensures pos == old(pos) + 1
    {
      pos := pos + 1;
    }

    method Prev()
      requires Valid()
      modifies this
      ensures pos == if old(pos) == 0 then |es| else old(pos) - 1
    {
      pos := if pos == 0 then |es| else pos - 1;
    }
  }

  ghost predicate VisibleAt(es: seq<Entry>, snapshot: nat, i: int) {
    0 <= i < |es| && es[i].key.sequence <= snapshot
  }

  /** Entry `i` is what a reader at `snapshot` sees of its user key, and it is a value. */
  ghost predicate Shown(es: seq<Entry>, snapshot: nat, i: int) {
    && VisibleAt(es, snapshot, i) && es[i].key.kind.Value?
    && forall j :: 0 <= j < i && es[j].key.user == es[i].key.user ==> !VisibleAt(es, snapshot, j)
  }

  ghost predicate NoneShown(es: seq<Entry>, snapshot: nat, lo: int, hi: int) {
    forall i :: lo <= i < hi ==> !Shown(es, snapshot, i)
  }

  /** Users are in order along a sorted run. */
  ghost predicate ByUser(es: seq<Entry>) {
    forall i, j :: 0 <= i < j < |es| ==> es[i].key.user <= es[j].key.user
  }

  lemma SortedByUser(es: seq<Entry>)
    requires Sorted(es)
    ensures ByUser(es)
  {
  }

  /** Entry `i` is passed over by a forward scan that skips the user keys up to `skip`. */
  predicate Hidden(es: seq<Entry>, skip: Option<UserKey>, i: nat)
    requires i < |es|
  {
    skip.Some? && es[i].key.user <= skip.value
  }

  /** What a forward scan at position `p` knows while it looks for a shown entry at or after `lo`:
      nothing shown was passed, and the keys it skips are exactly those already decided. */
  ghost predicate Scanning(es: seq<Entry>, snapshot: nat, skip: Option<UserKey>, lo: nat, p: nat) {
    && NoneShown(es, snapshot, lo, p)
    && (forall i, j :: (0 <= j < p <= i < |es| && VisibleAt(es, snapshot, j) && es[j].key.user == es[i].key.user) ==>
          Hidden(es, skip, i))
    && (forall i :: p <= i < |es| && lo <= i && Hidden(es, skip, i) ==> !Shown(es, snapshot, i))
    && (forall i :: p <= i < lo && VisibleAt(es, snapshot, i) ==> Some(es[i].key.user) == skip)
  }

  lemma ScanPastInvisible(es: seq<Entry>, snapshot: nat, skip: Option<UserKey>, lo: nat, p: nat)
    requires Scanning(es, snapshot, skip, lo, p) && p < |es| && !VisibleAt(es, snapshot, p)
    ensures Scanning(es, snapshot, skip, lo, p + 1)
  {
  }

  lemma ScanPastHidden(es: seq<Entry>, snapshot: nat, skip: Option<UserKey>, lo: nat, p: nat)
    requires ByUser(es) && Scanning(es, snapshot, skip, lo, p) && p < |es| && Hidden(es, skip, p)
    ensures Scanning(es, snapshot, skip, lo, p + 1)
  {
  }

  lemma ScanPastDeletion(es: seq<Entry>, snapshot: nat, skip: Option<UserKey>, lo: nat, p: nat)
    requires ByUser(es) && Scanning(es, snapshot, skip, lo, p) && p < |es|
    requires VisibleAt(es, snapshot, p) && es[p].key.kind.Deletion?
    ensures Scanning(es, snapshot, Some(es[p].key.user), lo, p + 1)
  {
    var skip1 := Some(es[p].key.user);
    forall i | p < i < |es| && Hidden(es, skip1, i) ensures !Shown(es, snapshot, i) {
      assert es[p].key.user == es[i].key.user;
    }
    forall i, j | 0 <= j <= p < i < |es| && VisibleAt(es, snapshot, j) && es[j].key.user == es[i].key.user
      ensures Hidden(es, skip1, i)
    {
      assert es[j].key.user <= es[p].key.user;
    }
  }

  lemma ScanFinds(es: seq<Entry>, snapshot: nat, skip: Option<UserKey>, lo: nat, p: nat)
    requires Scanning(es, snapshot, skip, lo, p) && p < |es|
    requires VisibleAt(es, snapshot, p) && es[p].key.kind.Value? && !Hidden(es, skip, p)
    ensures Shown(es, snapshot, p) && p >= lo && NoneShown(es, snapshot, lo, p)
  {
  }

  lemma ScanStartsAfter(es: seq<Entry>, snapshot: nat, cur: nat, p: nat)
    requires ByUser(es) && Shown(es, snapshot, cur) && p <= cur && AllInvisible(es, snapshot, p, cur)
    ensures Scanning(es, snapshot, Some(es[cur].key.user), cur + 1, p)
  {
    forall i, j | 0 <= j < p <= i < |es| && VisibleAt(es, snapshot, j) && es[j].key.user == es[i].key.user
      ensures Hidden(es, Some(es[cur].key.user), i)
    {
      assert es[j].key.user <= es[cur].key.user;
    }
  }

  ghost predicate AllInvisible(es: seq<Entry>, snapshot: nat, lo: int, hi: int) {
    forall i :: lo <= i < hi ==> !VisibleAt(es, snapshot, i)
  }

  /** What a backward scan that has looked at everything in [p, hi) knows. `c` is the lowest visible
      entry among them (`hi` for none); if it is a value, it is remembered. */
  ghost predicate Reversing(es: seq<Entry>, snapshot: nat, p: nat, hi: nat, c: nat, kept: Option<Entry>) {
    && p <= c <= hi <= |es|
    && AllInvisible(es, snapshot, p, c)
    && NoneShown(es, snapshot, c + 1, hi)
    && (c == hi ==> kept == None)
    && (c < hi ==>
          VisibleAt(es, snapshot, c) && kept == if es[c].key.kind.Value? then Some(es[c]) else None)
  }

  lemma ReversePastInvisible(es: seq<Entry>, snapshot: nat, p: nat, hi: nat, c: nat, kept: Option<Entry>)
    requires 0 < p && Reversing(es, snapshot, p, hi, c, kept) && !VisibleAt(es, snapshot, p - 1)
    ensures Reversing(es, snapshot, p - 1, hi, c, kept)
  {
  }

  lemma ReverseTakes(es: seq<Entry>, snapshot: nat, p: nat, hi: nat, c: nat, kept: Option<Entry>)
    requires ByUser(es) && 0 < p && Reversing(es, snapshot, p, hi, c, kept) && VisibleAt(es, snapshot, p - 1)
    requires kept.Some? ==> es[p - 1].key.user >= es[c].key.user
    ensures Reversing(es, snapshot, p - 1, hi, p - 1, if es[p - 1].key.kind.Value? then Some(es[p - 1]) else None)
  {
    if kept.Some? {
      assert es[p - 1].key.user == es[c].key.user;
    }
    forall i | p <= i < hi ensures !Shown(es, snapshot, i) {
      if i < c {
        assert !VisibleAt(es, snapshot, i);
      }
    }
  }

  /** The remembered value is shown once everything before it is known to be of smaller user keys. */
  lemma ReverseFinds(es: seq<Entry>, snapshot: nat, p: nat, hi: nat, c: nat, kept: Option<Entry>)
    requires ByUser(es) && Reversing(es, snapshot, p, hi, c, kept) && kept.Some?
    requires p > 0 ==> es[p - 1].key.user < es[c].key.user
    ensures c < hi && Shown(es, snapshot, c) && NoneShown(es, snapshot, c + 1, hi) && AllInvisible(es, snapshot, p, c)
  {
    assert forall j :: 0 <= j < p ==> es[j].key.user <= es[p - 1].key.user;
  }

  lemma ReverseEnds(es: seq<Entry>, snapshot: nat, hi: nat, c: nat, kept: Option<Entry>)
    requires Reversing(es, snapshot, 0, hi, c, kept) && kept.None?
    ensures NoneShown(es, snapshot, 0, hi)
  {
    forall i | 0 <= i < hi ensures !Shown(es, snapshot, i) {
      if i < c {
        assert !VisibleAt(es, snapshot, i);
      }
    }
  }

  class DBIter {
    const iter: InternalIterator
    const snapshot: nat
    var savedKey: Option<UserKey>
    var savedValue: Bytes
    var forward: bool
    var valid: bool
    /** Index of the entry shown, while `valid`. */
    ghost var cur: nat

    /** Moving backwards: the first position the scan has passed. */
    ghost function Resume(): nat
      reads iter
    {
      if iter.Valid() then iter.pos + 1 else 0
    }

    /** Forwards the inner cursor is on the shown entry. Backwards it is on some earlier entry with
        nothing visible in between, and the shown entry is saved. */
    ghost predicate Valid()
      reads this, iter
    {
      && ByUser(iter.es) && iter.pos <= |iter.es|
      && (valid ==>
        && Shown(iter.es, snapshot, cur)
        && (forward ==> iter.pos == cur)
        && (!forward ==>
          && savedKey == Some(iter.es[cur].key.user) && savedValue == iter.es[cur].value
          && Resume() <= cur && AllInvisible(iter.es, snapshot, Resume(), cur)))
    }

    constructor (iter: InternalIterator, snapshot: nat)
      requires Sorted(iter.es) && iter.pos <= |iter.es|
      ensures Valid() && !valid && this.iter == iter && this.snapshot == snapshot
    {
      this.iter, this.snapshot := iter, snapshot;
      savedKey, savedValue, forward, valid := None, [], true, false;
      cur := 0;
      SortedByUser(iter.es);
    }

    function Key(): (k: UserKey)
      requires Valid() && valid
      reads this, iter
      ensures k == iter.es[cur].key.user
    {
      if forward then iter.es[iter.pos].key.user else savedKey.value
    }

    function Value(): (v: Bytes)
      requires Valid() && valid
      reads this, iter
      ensures v == iter.es[cur].value
    {
      if forward then iter.es[iter.pos].value else savedValue
    }

    /** To the next shown entry, or past the end when there is none. */
    method Next()
      requires Valid() && valid
      modifies this, iter
      ensures Valid()
      ensures valid ==> cur > old(cur) && NoneShown(iter.es, snapshot, old(cur) + 1, cur)
      ensures !valid ==> NoneShown(iter.es, snapshot, old(cur) + 1, |iter.es|)
    {
      hide ByUser, Shown, NoneShown, AllInvisible, Scanning;
      ShownInRange(iter.es, snapshot, cur);
      if !forward {
        forward := true;
        if !iter.Valid() {
          iter.SeekToFirst();
        } else {
          iter.Next();
        }
        if !iter.Valid() {
          // The entries of the saved key are still ahead, so the cursor cannot have run out.
          assert false;
        }
      } else {
        savedKey := Some(iter.es[iter.pos].key.user);
        NothingInvisible(iter.es, snapshot, cur);
      }
      ScanStartsAfter(iter.es, snapshot, cur, iter.pos);
      FindNextUserEntry(true, cur + 1);
    }

    /** Forward scan to the least shown entry at or after `lo`. */
    method FindNextUserEntry(skipping0: bool, ghost lo: nat)
      requires ByUser(iter.es) && iter.Valid() && forward
      requires skipping0 ==> savedKey.Some?
      requires Scanning(iter.es, snapshot, if skipping0 then savedKey else None, lo, iter.pos)
      modifies this, iter
      ensures Valid() && forward
      ensures valid ==> cur >= lo && NoneShown(iter.es, snapshot, lo, cur)
      ensures !valid ==> NoneShown(iter.es, snapshot, lo, |iter.es|)
    {
      hide ByUser, Shown, NoneShown, AllInvisible, Scanning;
      var skipping := skipping0;
      var more := true;
      while more
        invariant forward && iter.pos <= |iter.es| && more == iter.Valid() && (skipping ==> savedKey.Some?)
        invariant Scanning(iter.es, snapshot, if skipping then savedKey else None, lo, iter.pos)
        decreases |iter.es| - iter.pos, if more then 1 else 0
      {
        var k := iter.es[iter.pos].key;
        ghost var skip := if skipping then savedKey else None;
        if k.sequence <= snapshot {
          if k.kind.Deletion? {
            ScanPastDeletion(iter.es, snapshot, skip, lo, iter.pos);
            savedKey, skipping := Some(k.user), true;
          } else if skipping && k.user <= savedKey.value {
            ScanPastHidden(iter.es, snapshot, skip, lo, iter.pos);
          } else {
            ScanFinds(iter.es, snapshot, skip, lo, iter.pos);
            valid, savedKey, cur := true, None, iter.pos;
            return;
          }
        } else {
          ScanPastInvisible(iter.es, snapshot, skip, lo, iter.pos);
        }
        iter.Next();
        more := iter.Valid();
      }
      ScanPassed(iter.es, snapshot, if skipping then savedKey else None, lo, iter.pos);
      savedKey, valid := None, false;
    }

    /** To the previous shown entry, or before the start when there is none. */
    method Prev()
      requires Valid() && valid
      modifies this, iter
      ensures Valid()
      ensures valid ==> cur < old(cur) && NoneShown(iter.es, snapshot, cur + 1, old(cur))
      ensures !valid ==> NoneShown(iter.es, snapshot, 0, old(cur))
    {
      hide ByUser, Shown, NoneShown, AllInvisible, Reversing;
      ghost var cur0: nat, resume: nat := cur, Resume();
      ShownInRange(iter.es, snapshot, cur);
      if forward {
        savedKey := Some(iter.es[iter.pos].key.user);
        var searching := true;
        NothingInvisible(iter.es, snapshot, cur);
        while searching
          invariant cur == cur0 < |iter.es| && ByUser(iter.es) && Shown(iter.es, snapshot, cur)
          invariant iter.Valid() && (searching ==> iter.pos <= cur) && forward && valid
          invariant savedKey == Some(iter.es[cur].key.user)
          invariant searching ==> iter.es[iter.pos].key.user == savedKey.value && AllInvisible(iter.es, snapshot, iter.pos, cur)
          invariant !searching ==> iter.pos < cur && AllInvisible(iter.es, snapshot, iter.pos + 1, cur)
          decreases if searching then iter.pos + 1 else 0
        {
          ghost var p := iter.pos;
          iter.Prev();
          if !iter.Valid() {
            InvisibleNotShown(iter.es, snapshot, 0, cur);
            valid, savedKey, savedValue := false, None, [];
            return;
          }
          if iter.es[iter.pos].key.user < savedKey.value {
            searching := false;
          } else {
            SameUserInvisible(iter.es, snapshot, cur, p);
          }
        }
        forward := false;
        resume := iter.pos + 1;
      }
      InvisibleNotShown(iter.es, snapshot, resume, cur0);
      FindPrevUserEntry(resume);
      JoinNoneShown(iter.es, snapshot, if valid then cur + 1 else 0, resume, cur0);
    }

    /** Backward scan to the greatest shown entry before `hi`. */
    method FindPrevUserEntry(ghost hi: nat)
      requires ByUser(iter.es) && iter.pos <= |iter.es| && !forward && hi == Resume()
      modifies this, iter
      ensures Valid()
      ensures valid ==> cur < hi && NoneShown(iter.es, snapshot, cur + 1, hi)
      ensures !valid ==> NoneShown(iter.es, snapshot, 0, hi)
    {
      hide ByUser, Shown, NoneShown, AllInvisible, Reversing;
      var valueType := Deletion;
      ghost var c: nat := hi;
      ReverseStarts(iter.es, snapshot, hi);
      if iter.Valid() {
        var more := true;
        while more
          invariant iter.pos <= |iter.es| && !forward && (more ==> iter.Valid())
          invariant Reversing(iter.es, snapshot, Resume(), hi, c, Remembered(iter.es, c, valueType))
          invariant valueType.Value? ==> c < hi && savedKey == Some(iter.es[c].key.user) && savedValue == iter.es[c].value
          invariant !more ==> Resume() == 0 || (valueType.Value? && iter.es[Resume() - 1].key.user < savedKey.value)
          decreases if more then Resume() + 1 else 0
        {
          ReverseInRange(iter.es, snapshot, Resume(), hi, c, Remembered(iter.es, c, valueType));
          var e := iter.es[iter.pos];
          if e.key.sequence <= snapshot {
            if valueType.Value? && e.key.user < savedKey.value {
              more := false;
            } else {
              ReverseTakes(iter.es, snapshot, Resume(), hi, c, Remembered(iter.es, c, valueType));
              c := iter.pos;
              valueType := e.key.kind;
              if valueType.Deletion? {
                savedKey, savedValue := None, [];
              } else {
                savedKey, savedValue := Some(e.key.user), e.value;
              }
            }
          } else {
            ReversePastInvisible(iter.es, snapshot, Resume(), hi, c, Remembered(iter.es, c, valueType));
          }
          if more {
            iter.Prev();
            more := iter.Valid();
          }
        }
      }
      ReverseInRange(iter.es, snapshot, Resume(), hi, c, Remembered(iter.es, c, valueType));
      if valueType.Deletion? {
        ReverseEnds(iter.es, snapshot, hi, c, None);
        valid, savedKey, savedValue, forward := false, None, [], true;
      } else {
        ReverseFinds(iter.es, snapshot, Resume(), hi, c, Remembered(iter.es, c, valueType));
        valid, cur := true, c;
      }
    }

    /** To the shown entry of the least user key at or after `target`. */
    method Seek(target: UserKey)
      requires Valid() && Sorted(iter.es)
      modifies this, iter
      ensures Valid()
      ensures valid ==> iter.es[cur].key.user >= target
      ensures forall i :: Shown(iter.es, snapshot, i) && iter.es[i].key.user >= target ==> valid && cur <= i
    {
      hide ByUser, Scanning;
      forward, savedValue, savedKey := true, [], None;
      iter.Seek(LookupKey(target, snapshot));
      SeekSkipsNothing(iter.es, snapshot, target, iter.pos);
      ghost var lo := iter.pos;
      if iter.Valid() {
        FindNextUserEntry(false, lo);
      } else {
        valid := false;
      }
    }

    method SeekToFirst()
      requires Valid()
      modifies this, iter
      ensures Valid()
      ensures valid ==> NoneShown(iter.es, snapshot, 0, cur)
      ensures !valid ==> NoneShown(iter.es, snapshot, 0, |iter.es|)
    {
      hide ByUser;
      forward, savedValue := true, [];
      iter.SeekToFirst();
      if iter.Valid() {
        FindNextUserEntry(false, 0);
      } else {
        valid := false;
      }
    }

    method SeekToLast()
      requires Valid()
      modifies this, iter
      ensures Valid()
      ensures valid ==> NoneShown(iter.es, snapshot, cur + 1, |iter.es|)
      ensures !valid ==> NoneShown(iter.es, snapshot, 0, |iter.es|)
    {
      hide ByUser;
      forward, savedValue := false, [];
      iter.SeekToLast();
      FindPrevUserEntry(|iter.es|);
    }
  }

  /** The entry a backward scan holds on to. */
  ghost function Remembered(es: seq<Entry>, c: nat, valueType: ValueType): Option<Entry> {
    if valueType.Value? && c < |es| then Some(es[c]) else None
  }

  lemma ShownInRange(es: seq<Entry>, snapshot: nat, i: int)
    requires Shown(es, snapshot, i)
    ensures 0 <= i < |es|
  {
  }

  lemma NothingInvisible(es: seq<Entry>, snapshot: nat, i: int)
    ensures AllInvisible(es, snapshot, i, i)
  {
  }

  lemma ScanPassed(es: seq<Entry>, snapshot: nat, skip: Option<UserKey>, lo: nat, p: nat)
    requires Scanning(es, snapshot, skip, lo, p)
    ensures NoneShown(es, snapshot, lo, p)
  {
  }

  lemma InvisibleNotShown(es: seq<Entry>, snapshot: nat, lo: int, hi: int)
    requires AllInvisible(es, snapshot, lo, hi)
    ensures NoneShown(es, snapshot, lo, hi)
  {
  }

  lemma JoinNoneShown(es: seq<Entry>, snapshot: nat, lo: int, mid: int, hi: int)
    requires NoneShown(es, snapshot, lo, mid) && NoneShown(es, snapshot, mid, hi)
    ensures NoneShown(es, snapshot, lo, hi)
  {
  }

  /** Before a shown entry its own user key has nothing visible. */
  lemma SameUserInvisible(es: seq<Entry>, snapshot: nat, cur: nat, p: nat)
    requires ByUser(es) && Shown(es, snapshot, cur) && 0 < p <= cur && AllInvisible(es, snapshot, p, cur)
    requires es[p - 1].key.user >= es[cur].key.user
    ensures AllInvisible(es, snapshot, p - 1, cur) && es[p - 1].key.user == es[cur].key.user
  {
  }

  lemma ReverseStarts(es: seq<Entry>, snapshot: nat, hi: nat)
    requires hi <= |es|
    ensures Reversing(es, snapshot, hi, hi, hi, None)
  {
  }

  lemma ReverseInRange(es: seq<Entry>, snapshot: nat, p: nat, hi: nat, c: nat, kept: Option<Entry>)
    requires Reversing(es, snapshot, p, hi, c, kept)
    ensures p <= c <= hi <= |es|
  {
  }

  /** Seeking the lookup key of `target` passes no shown entry at or after `target`. */
  lemma SeekSkipsNothing(es: seq<Entry>, snapshot: nat, target: UserKey, p: nat)
    requires Sorted(es) && p == SeekIndex(es, LookupKey(target, snapshot))
    ensures Scanning(es, snapshot, None, p, p)
    ensures forall i :: p <= i < |es| ==> es[i].key.user >= target
    ensures forall i :: 0 <= i < p && VisibleAt(es, snapshot, i) ==> es[i].key.user < target
  {
    forall i | p <= i < |es| ensures es[i].key.user >= target {
      assert i == p || Less(es[p].key, es[i].key);
    }
  }

  /** A shown entry is the newest one the snapshot can see of its user key. */
  lemma ShownIsNewest(es: seq<Entry>, snapshot: nat, i: int)
    requires Sorted(es) && Shown(es, snapshot, i)
    ensures IsNewest(EntrySet(es), es[i].key.user, snapshot, Some(es[i]))
  {
    forall e | e in EntrySet(es) && Visible(e, es[i].key.user, snapshot) ensures e.key.sequence <= es[i].key.sequence {
      var j :| 0 <= j < |es| && es[j] == e;
      assert i == j || Less(es[i].key, es[j].key);
    }
  }

  /** A user key whose newest visible entry is a value is shown, with that entry. */
  lemma NewestIsShown(es: seq<Entry>, snapshot: nat, n: Entry) returns (i: nat)
    requires Sorted(es) && IsNewest(EntrySet(es), n.key.user, snapshot, Some(n)) && n.key.kind.Value?
    ensures i < |es| && es[i] == n && Shown(es, snapshot, i)
  {
    i :| 0 <= i < |es| && es[i] == n;
    forall j | 0 <= j < i && es[j].key.user == n.key.user ensures !VisibleAt(es, snapshot, j) {
      assert Less(es[j].key, es[i].key);
      assert es[j] in EntrySet(es);
    }
  }

  /** The shown entries are exactly the pairs of the map at that point of history, each key once and in
      key order. */
  lemma ShowsTheMap(es: seq<Entry>, h: seq<Op>, oldest: nat, snapshot: nat, user: UserKey)
    requires Sorted(es) && ReadsMatch(EntrySet(es), h, oldest) && oldest <= snapshot <= |h|
    ensures user in MapAfter(h[..snapshot]) <==> exists i :: Shown(es, snapshot, i) && es[i].key.user == user
    ensures forall i :: Shown(es, snapshot, i) && es[i].key.user == user ==>
                          ReadAfter(h[..snapshot], user) == Some(es[i].value)
    ensures forall i, j :: Shown(es, snapshot, i) && Shown(es, snapshot, j) && i < j ==> es[i].key.user < es[j].key.user
  {
    hide Less, Sorted, MapAfter;
    SortedByUser(es);
    forall i | Shown(es, snapshot, i) ensures ReadAfter(h[..snapshot], es[i].key.user) == Some(es[i].value) {
      ShownIsNewest(es, snapshot, i);
    }
    var r := NewestExists(EntrySet(es), user, snapshot);
    if user in MapAfter(h[..snapshot]) {
      assert ValueOf(r) == ReadAfter(h[..snapshot], user);
      var i := NewestIsShown(es, snapshot, r.value);
    }
  }

  /** Between two neighbouring shown entries the map has no key. */
  lemma NeighboursInTheMap(es: seq<Entry>, h: seq<Op>, oldest: nat, snapshot: nat, c: nat, c1: nat, user: UserKey)
    requires Sorted(es) && ReadsMatch(EntrySet(es), h, oldest) && oldest <= snapshot <= |h|
    requires c < c1 && Shown(es, snapshot, c) && Shown(es, snapshot, c1) && NoneShown(es, snapshot, c + 1, c1)
    ensures es[c].key.user < es[c1].key.user
    ensures user in MapAfter(h[..snapshot]) ==> user <= es[c].key.user || user >= es[c1].key.user
  {
    hide Less, Sorted, MapAfter, ReadsMatch;
    ShowsTheMap(es, h, oldest, snapshot, user);
    if user in MapAfter(h[..snapshot]) {
      var i :| Shown(es, snapshot, i) && es[i].key.user == user;
      assert i <= c || i >= c1;
    }
  }
}
