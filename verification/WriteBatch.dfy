/** Write batches: a header with sequence number and count, then the updates (db/write_batch.cc). */
module WriteBatch {
  import opened Keys
  import opened Sequences
  import opened Coding

  datatype Update = Put(key: Bytes, value: Bytes) | Delete(key: Bytes)

  const HEADER: nat := 12
  const TYPE_DELETION: Byte := 0
  const TYPE_VALUE: Byte := 1

  predicate Fits(u: Update) {
    |u.key| < TWO_32 && (u.Put? ==> |u.value| < TWO_32)
  }

  ghost predicate AllFit(us: seq<Update>) {
    forall i :: 0 <= i < |us| ==> Fits(us[i])
  }

  function UpdateBytes(u: Update): (r: Bytes)
    requires Fits(u)
    ensures r != []
  {
    match u
    case Put(key, value) => [TYPE_VALUE] + LengthPrefixed(key) + LengthPrefixed(value)
    case Delete(key) => [TYPE_DELETION] + LengthPrefixed(key)
  }

  function Encoded(us: seq<Update>): Bytes
    requires AllFit(us)
  {
    if us == [] then [] else Encoded(us[..|us| - 1]) + UpdateBytes(us[|us| - 1])
  }

  lemma EncodedGrows(us: seq<Update>, u: Update)
    requires AllFit(us) && Fits(u)
    ensures AllFit(us + [u]) && Encoded(us + [u]) == Encoded(us) + UpdateBytes(u)
  {
    hide UpdateBytes;
    assert (us + [u])[..|us|] == us;
  }

  lemma {:induction false} EncodedJoins(a: seq<Update>, b: seq<Update>)
    requires AllFit(a) && AllFit(b)
    ensures AllFit(a + b) && Encoded(a + b) == Encoded(a) + Encoded(b)
    decreases |b|
  {
    hide UpdateBytes, Encoded, Fits;
    if b == [] {
      assert a + b == a && Encoded([]) == [] by {
        NothingEncoded();
      }
    } else {
      var shorter, last := b[..|b| - 1], b[|b| - 1];
      EncodedJoins(a, shorter);
      EncodedGrows(a + shorter, last);
      EncodedGrows(shorter, last);
      assert a + b == a + shorter + [last] && b == shorter + [last];
      assert Encoded(a) + (Encoded(shorter) + UpdateBytes(last)) == Encoded(a) + Encoded(shorter) + UpdateBytes(last);
    }
  }

  lemma NothingEncoded()
    ensures Encoded([]) == []
  {
  }

  datatype Error = TooSmall | BadPut | BadDelete | UnknownTag | WrongCount

  /** The updates handed on before the end of the input or the first error. */
  datatype Replayed = Replayed(updates: seq<Update>, error: Option<Error>)

  function Replay(input: Bytes): (r: Replayed)
    decreases |input|
  {
    if input == [] then Replayed([], None)
    else if input[0] == TYPE_VALUE then
      match GetLengthPrefixedSlice(input[1..])
      case Malformed => Replayed([], Some(BadPut))
      case Parsed(key, rest) =>
        match GetLengthPrefixedSlice(rest)
        case Malformed => Replayed([], Some(BadPut))
        case Parsed(value, rest1) => Prefixed([Put(key, value)], Replay(rest1))
    else if input[0] == TYPE_DELETION then
      match GetLengthPrefixedSlice(input[1..])
      case Malformed => Replayed([], Some(BadDelete))
      case Parsed(key, rest) => Prefixed([Delete(key)], Replay(rest))
    else Replayed([], Some(UnknownTag))
  }

  function Prefixed(us: seq<Update>, r: Replayed): Replayed {
    r.(updates := us + r.updates)
  }

  lemma UpdateReplays(u: Update, rest: Bytes)
    requires Fits(u)
    ensures Replay(UpdateBytes(u) + rest) == Prefixed([u], Replay(rest))
  {
    hide LengthPrefixed, GetLengthPrefixedSlice;
    var input := UpdateBytes(u) + rest;
    match u
    case Put(key, value) =>
      assert input[1..] == LengthPrefixed(key) + (LengthPrefixed(value) + rest);
      LengthPrefixedRoundTrip(key, LengthPrefixed(value) + rest);
      LengthPrefixedRoundTrip(value, rest);
    case Delete(key) =>
      assert input[1..] == LengthPrefixed(key) + rest;
      LengthPrefixedRoundTrip(key, rest);
  }

  /** Encoded updates are replayed one by one, in order, whatever follows them. */
  lemma {:induction false} EncodedReplays(us: seq<Update>, rest: Bytes)
    requires AllFit(us)
    ensures Replay(Encoded(us) + rest) == Prefixed(us, Replay(rest))
  {
    hide Replay, UpdateBytes;
    if us == [] {
      assert Encoded(us) + rest == rest;
    } else {
      var shorter, last := us[..|us| - 1], us[|us| - 1];
      assert Encoded(us) + rest == Encoded(shorter) + (UpdateBytes(last) + rest);
      EncodedReplays(shorter, UpdateBytes(last) + rest);
      UpdateReplays(last, rest);
      assert shorter + ([last] + Replay(rest).updates) == us + Replay(rest).updates;
    }
  }

  class WriteBatch {
    var rep: Bytes
    /** The updates put in so far. */
    ghost var updates: seq<Update>

    ghost predicate Valid()
      reads this
    {
      && AllFit(updates) && |updates| < 0x8000_0000 && |rep| >= HEADER
      && rep[8..12] == Fixed(|updates|, 4)
      && rep[12..] == Encoded(updates)
    }

    constructor ()
      ensures Valid() && updates == [] && |rep| == 12 && forall i :: 0 <= i < 12 ==> rep[i] == 0
    {
      rep := [0, 0, 0, 0, 0, 0, 0, 0, 0, 0, 0, 0];
      updates := [];
      new;
      ZeroCount();
    }

    function Count(): (n: nat)
      requires |rep| >= HEADER
      reads this
    {
      DecodeFixed32(rep[8..12])
    }

    function Sequence(): nat
      requires |rep| >= HEADER
      reads this
    {
      FixedValue(rep[..8])
    }

    method SetCount(n: nat)
      requires |rep| >= HEADER
      modifies this
      ensures rep == old(rep)[..8] + Fixed(n, 4) + old(rep)[12..] && updates == old(updates)
    {
      rep := rep[..8] + Fixed(n, 4) + rep[12..];
    }

    method SetSequence(sequence: Word64)
      requires Valid()
      modifies this
      ensures Valid() && updates == old(updates) && Sequence() == sequence
    {
      hide Fixed, FixedValue, Encoded;
      SequenceFits(sequence);
      rep := Fixed(sequence, 8) + rep[8..];
      assert rep[..8] == Fixed(sequence, 8);
      assert rep[8..12] == old(rep)[8..12] && rep[12..] == old(rep)[12..];
    }

    method Put(key: Bytes, value: Bytes)
      requires Valid() && |updates| + 1 < 0x8000_0000 && |key| < TWO_32 && |value| < TWO_32
      modifies this
      ensures Valid() && updates == old(updates) + [Update.Put(key, value)] && rep[..8] == old(rep)[..8]
    {
      hide Fixed, LengthPrefixed, DecodeFixed32;
      CountIs(|updates|);
      SetCount(Count() + 1);
      rep := rep + [TYPE_VALUE];
      rep := rep + LengthPrefixed(key);
      rep := rep + LengthPrefixed(value);
      UpdateInParts(old(rep)[..8] + Fixed(|updates| + 1, 4) + old(rep)[12..], Update.Put(key, value));
      AppendOne(old(rep), rep, updates, Update.Put(key, value));
      updates := updates + [Update.Put(key, value)];
    }

    method Delete(key: Bytes)
      requires Valid() && |updates| + 1 < 0x8000_0000 && |key| < TWO_32
      modifies this
      ensures Valid() && updates == old(updates) + [Update.Delete(key)] && rep[..8] == old(rep)[..8]
    {
      hide Fixed, LengthPrefixed, DecodeFixed32;
      CountIs(|updates|);
      SetCount(Count() + 1);
      rep := rep + [TYPE_DELETION];
      rep := rep + LengthPrefixed(key);
      UpdateInParts(old(rep)[..8] + Fixed(|updates| + 1, 4) + old(rep)[12..], Update.Delete(key));
      AppendOne(old(rep), rep, updates, Update.Delete(key));
      updates := updates + [Update.Delete(key)];
    }

    /** The updates of `source` after the ones already here; its sequence number is not taken. */
    method Append(source: WriteBatch)
      requires Valid() && source.Valid() && |updates| + |source.updates| < 0x8000_0000
      modifies this
      ensures Valid() && updates == old(updates) + old(source.updates) && rep[..8] == old(rep)[..8]
    {
      hide Fixed, Encoded, DecodeFixed32;
      CountIs(|updates|);
      CountIs(|source.updates|);
      EncodedJoins(updates, source.updates);
      ghost var us := source.updates;
      var more := source.rep[HEADER..];
      SetCount(Count() + source.Count());
      ghost var front := rep[12..];
      assert front == old(rep)[12..];
      rep := rep + more;
      assert rep[12..] == front + more && rep[..12] == old(rep)[..8] + Fixed(|updates| + |us|, 4);
      assert rep[8..12] == rep[..12][8..];
      updates := updates + us;
    }

    /** Hands on the updates of any representation, and says what was wrong with it. */
    method Iterate() returns (r: Replayed)
      ensures r == if |rep| < HEADER then Replayed([], Some(TooSmall))
                   else
                     var all := Replay(rep[HEADER..]);
                     if all.error.None? && |all.updates| != Count() then Replayed(all.updates, Some(WrongCount)) else all
    {
      hide GetLengthPrefixedSlice;
      if |rep| < HEADER {
        return Replayed([], Some(TooSmall));
      }
      var input := rep[HEADER..];
      var found := 0;
      var handed: seq<Update> := [];
      while input != []
        invariant found == |handed| && Prefixed(handed, Replay(input)) == Replay(rep[HEADER..])
        decreases |input|
      {
        found := found + 1;
        var tag := input[0];
        var a := GetLengthPrefixedSlice(input[1..]);
        if tag == TYPE_VALUE {
          if a.Malformed? {
            return Replayed(handed, Some(BadPut));
          }
          var b := GetLengthPrefixedSlice(a.rest);
          if b.Malformed? {
            return Replayed(handed, Some(BadPut));
          }
          OneMore(handed, Update.Put(a.value, b.value), Replay(b.rest));
          handed := handed + [Update.Put(a.value, b.value)];
          input := b.rest;
        } else if tag == TYPE_DELETION {
          if a.Malformed? {
            return Replayed(handed, Some(BadDelete));
          }
          OneMore(handed, Update.Delete(a.value), Replay(a.rest));
          handed := handed + [Update.Delete(a.value)];
          input := a.rest;
        } else {
          return Replayed(handed, Some(UnknownTag));
        }
      }
      if found != Count() {
        return Replayed(handed, Some(WrongCount));
      }
      return Replayed(handed, None);
    }
  }

  /** Iterating a batch gives exactly its updates, and the count is right. */
  lemma BatchReplays(rep: Bytes, us: seq<Update>)
    requires AllFit(us) && |us| < 0x8000_0000 && |rep| >= HEADER
    requires rep[8..12] == Fixed(|us|, 4) && rep[12..] == Encoded(us)
    ensures Replay(rep[HEADER..]) == Replayed(us, None) && DecodeFixed32(rep[8..12]) == |us|
  {
    EncodedReplays(us, []);
    assert Encoded(us) + [] == Encoded(us) && us + [] == us;
    Fixed32RoundTrip(|us|);
  }

  /** Update `i` of a batch goes into the memtable under the batch's sequence number plus `i`; those before
      the first error do so too. */
  method InsertInto(b: WriteBatch) returns (added: seq<(nat, Update)>, error: Option<Error>)
    requires |b.rep| >= HEADER
    ensures var all := Replay(b.rep[HEADER..]);
            && |added| == |all.updates|
            && (forall i :: 0 <= i < |added| ==> added[i] == (b.Sequence() + i, all.updates[i]))
            && error == if all.error.None? && |all.updates| != b.Count() then Some(WrongCount) else all.error
    ensures b.Valid() ==> error.None? && |added| == |b.updates|
                          && forall i :: 0 <= i < |added| ==> added[i] == (b.Sequence() + i, b.updates[i])
  {
    hide Encoded, Replay, Fixed;
    if b.Valid() {
      BatchReplays(b.rep, b.updates);
    }
    var r := b.Iterate();
    error := r.error;
    added := [];
    for i := 0 to |r.updates|
      invariant |added| == i
      invariant forall j :: 0 <= j < i ==> added[j] == (b.Sequence() + j, r.updates[j])
    {
      added := added + [(b.Sequence() + i, r.updates[i])];
    }
  }

  lemma OneMore(handed: seq<Update>, u: Update, r: Replayed)
    ensures Prefixed(handed, Prefixed([u], r)) == Prefixed(handed + [u], r)
  {
    assert handed + ([u] + r.updates) == handed + [u] + r.updates;
  }

  lemma ZeroCount()
    ensures Fixed(0, 4) == [0, 0, 0, 0]
  {
    assert Fixed(0, 0) == [] && Fixed(0, 1) == [0] && Fixed(0, 2) == [0, 0] && Fixed(0, 3) == [0, 0, 0];
  }

  lemma CountIs(n: nat)
    requires n < TWO_32
    ensures DecodeFixed32(Fixed(n, 4)) == n
  {
    Fixed32RoundTrip(n);
  }

  lemma SequenceFits(sequence: Word64)
    ensures FixedValue(Fixed(sequence, 8)) == sequence
  {
    assert Power256(4) == 256 * (256 * (256 * (256 * Power256(0))));
    assert Power256(8) == 256 * (256 * (256 * (256 * Power256(4))));
    FixedRoundTrip(sequence, 8);
  }

  lemma AppendOne(rep0: Bytes, rep: Bytes, us: seq<Update>, u: Update)
    requires AllFit(us) && Fits(u) && |rep0| >= HEADER && rep0[12..] == Encoded(us)
    requires rep == rep0[..8] + Fixed(|us| + 1, 4) + rep0[12..] + UpdateBytes(u)
    ensures AllFit(us + [u]) && rep[..8] == rep0[..8] && rep[8..12] == Fixed(|us| + 1, 4) && rep[12..] == Encoded(us + [u])
  {
    hide Fixed, Encoded, AllFit, UpdateBytes;
    EncodedGrows(us, u);
    Associates(rep0[..8] + Fixed(|us| + 1, 4), rep0[12..], UpdateBytes(u));
    Parts(rep, rep0[..8], Fixed(|us| + 1, 4), rep0[12..] + UpdateBytes(u));
  }

  lemma UpdateInParts(front: Bytes, u: Update)
    requires Fits(u)
    ensures match u
            case Put(key, value) => front + [TYPE_VALUE] + LengthPrefixed(key) + LengthPrefixed(value) == front + UpdateBytes(u)
            case Delete(key) => front + [TYPE_DELETION] + LengthPrefixed(key) == front + UpdateBytes(u)
  {
    hide LengthPrefixed;
  }

  lemma Parts(rep: Bytes, a: Bytes, b: Bytes, c: Bytes)
    requires rep == a + b + c && |a| == 8 && |b| == 4
    ensures rep[..8] == a && rep[8..12] == b && rep[12..] == c
  {
  }
}
