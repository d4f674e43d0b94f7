/** The hash table of the cache (util/cache.cc): buckets of handles, with a length that is a power of two. */
module HandleTable {
  import opened Keys
  import opened Numbers

  /** A handle in a bucket. Handles are numbered; a handle's key and hash never change. */
  datatype Slot = Slot(key: Bytes, hash: nat, id: nat)

  ghost predicate PowerOfTwo(n: nat) {
    n == 1 || (n > 1 && n % 2 == 0 && PowerOfTwo(n / 2))
  }

  /** The bits that two numbers share, as `&` computes them. */
  function Masked(x: nat, y: nat): nat {
    if x == 0 || y == 0 then 0 else (x % 2) * (y % 2) + 2 * Masked(x / 2, y / 2)
  }

  lemma MaskedHalves(x: nat, half: nat)
    requires half > 0
    ensures Masked(x, 2 * half - 1) == x % 2 + 2 * Masked(x / 2, half - 1)
  {
    var y := 2 * half - 1;
    assert y / 2 == half - 1 && y % 2 == 1;
    assert x > 0 ==> Masked(x, y) == (x % 2) * (y % 2) + 2 * Masked(x / 2, y / 2);
  }

  /** Masking with a power of two less one takes the remainder. */
  lemma {:induction false} MaskIsRemainder(hash: nat, length: nat)
    requires PowerOfTwo(length)
    ensures Masked(hash, length - 1) == hash % length < length
    decreases length
  {
    hide Masked;
    if length == 1 {
      NothingMasked(hash);
    } else {
      var half := length / 2;
      MaskIsRemainder(hash / 2, half);
      MaskedHalves(hash, half);
      RemainderByHalves(hash, half);
      assert length == 2 * half;
    }
  }

  lemma NothingMasked(x: nat)
    ensures Masked(x, 0) == 0
  {
  }

  lemma RemainderByHalves(x: nat, half: nat)
    requires half > 0
    ensures x % (2 * half) == x % 2 + 2 * (x / 2 % half)
  {
    var q, r := x / 2 / half, x / 2 % half;
    assert x / 2 == q * half + r;
    assert x == q * (2 * half) + (x % 2 + 2 * r);
    DivisionUnique(x, 2 * half, q, x % 2 + 2 * r);
  }

  /** Where a key is in its bucket; the bucket's length if it is not there. */
  function FindSlot(bucket: seq<Slot>, key: Bytes, hash: nat): (p: nat)
    ensures p <= |bucket|
    ensures p < |bucket| ==> bucket[p].hash == hash && bucket[p].key == key
    ensures forall i :: 0 <= i < p ==> bucket[i].hash != hash || bucket[i].key != key
  {
    if bucket == [] then 0
    else if bucket[0].hash == hash && bucket[0].key == key then 0
    else
      var p := FindSlot(bucket[1..], key, hash);
      assert forall i :: 0 < i < p + 1 ==> bucket[i] == bucket[1..][i - 1];
      p + 1
  }

  ghost function Total(buckets: seq<seq<Slot>>): nat {
    if buckets == [] then 0 else Total(buckets[..|buckets| - 1]) + |buckets[|buckets| - 1]|
  }

  lemma {:induction false} TotalUpdate(buckets: seq<seq<Slot>>, b: nat, bucket: seq<Slot>)
    requires b < |buckets|
    ensures Total(buckets[b := bucket]) == Total(buckets) - |buckets[b]| + |bucket|
    decreases |buckets|
  {
    var shorter := buckets[..|buckets| - 1];
    var buckets1 := buckets[b := bucket];
    if b < |shorter| {
      TotalUpdate(shorter, b, bucket);
      assert buckets1[..|buckets1| - 1] == shorter[b := bucket];
    } else {
      assert buckets1[..|buckets1| - 1] == shorter;
    }
  }

  /** No key twice in a bucket, and every slot in the bucket of its hash. */
  ghost predicate BucketOk(hashOf: Bytes -> nat, bucket: seq<Slot>, b: nat, length: nat)
    requires length > 0
  {
    && (forall i :: 0 <= i < |bucket| ==> bucket[i].hash == hashOf(bucket[i].key) && bucket[i].hash % length == b)
    && (forall i, j :: 0 <= i < j < |bucket| ==> bucket[i].key != bucket[j].key)
  }

  ghost predicate AllOk(hashOf: Bytes -> nat, buckets: seq<seq<Slot>>) {
    buckets != [] && forall b :: 0 <= b < |buckets| ==> BucketOk(hashOf, buckets[b], b, |buckets|)
  }

  /** The buckets hold exactly the pairs of the map. */
  ghost predicate Holds(hashOf: Bytes -> nat, buckets: seq<seq<Slot>>, m: map<Bytes, nat>)
    requires buckets != []
  {
    forall key, id :: Slot(key, hashOf(key), id) in buckets[hashOf(key) % |buckets|] <==> key in m && m[key] == id
  }

  lemma LookupIs(hashOf: Bytes -> nat, buckets: seq<seq<Slot>>, m: map<Bytes, nat>, key: Bytes)
    requires AllOk(hashOf, buckets) && Holds(hashOf, buckets, m)
    ensures var bucket := buckets[hashOf(key) % |buckets|];
            var p := FindSlot(bucket, key, hashOf(key));
            if p < |bucket| then key in m && m[key] == bucket[p].id else key !in m
  {
    var bucket := buckets[hashOf(key) % |buckets|];
    var p := FindSlot(bucket, key, hashOf(key));
    assert key in m ==> Slot(key, hashOf(key), m[key]) in bucket;
    if p < |bucket| {
      assert Slot(key, hashOf(key), bucket[p].id) in bucket;
    }
  }

  /** Replacing the slot of a key, or appending one. */
  lemma PutIs(hashOf: Bytes -> nat, buckets: seq<seq<Slot>>, m: map<Bytes, nat>, key: Bytes, id: nat)
    requires AllOk(hashOf, buckets) && Holds(hashOf, buckets, m)
    ensures var b := hashOf(key) % |buckets|;
            var p := FindSlot(buckets[b], key, hashOf(key));
            var bucket1 := if p < |buckets[b]| then buckets[b][p := Slot(key, hashOf(key), id)] else buckets[b] + [Slot(key, hashOf(key), id)];
            AllOk(hashOf, buckets[b := bucket1]) && Holds(hashOf, buckets[b := bucket1], m[key := id])
  {
    hide FindSlot;
    var b := hashOf(key) % |buckets|;
    var bucket := buckets[b];
    var p := FindSlot(bucket, key, hashOf(key));
    var slot := Slot(key, hashOf(key), id);
    PutInBucket(hashOf, bucket, b, |buckets|, key, id);
    OneBucketChanges(hashOf, buckets, m, key, if p < |bucket| then bucket[p := slot] else bucket + [slot], Some(id));
  }

  /** Changing the slot of one key changes the map at that key. */
  lemma OneBucketChanges(hashOf: Bytes -> nat, buckets: seq<seq<Slot>>, m: map<Bytes, nat>, key: Bytes, bucket1: seq<Slot>, id: Option<nat>)
    requires AllOk(hashOf, buckets) && Holds(hashOf, buckets, m)
    requires BucketOk(hashOf, bucket1, hashOf(key) % |buckets|, |buckets|)
    requires forall s :: s in bucket1 <==>
                           (id.Some? && s == Slot(key, hashOf(key), id.value))
                           || (s in buckets[hashOf(key) % |buckets|] && s.key != key)
    ensures AllOk(hashOf, buckets[hashOf(key) % |buckets| := bucket1])
    ensures Holds(hashOf, buckets[hashOf(key) % |buckets| := bucket1], if id.Some? then m[key := id.value] else m - {key})
  {
    hide BucketOk;
    var b := hashOf(key) % |buckets|;
    var buckets1 := buckets[b := bucket1];
    var m1 := if id.Some? then m[key := id.value] else m - {key};
    forall k, n ensures Slot(k, hashOf(k), n) in buckets1[hashOf(k) % |buckets1|] <==> k in m1 && m1[k] == n {
      var s := Slot(k, hashOf(k), n);
      assert s in buckets[hashOf(k) % |buckets|] <==> k in m && m[k] == n;
    }
  }

  lemma PutInBucket(hashOf: Bytes -> nat, bucket: seq<Slot>, b: nat, length: nat, key: Bytes, id: nat)
    requires length > 0 && BucketOk(hashOf, bucket, b, length) && hashOf(key) % length == b
    ensures var p := FindSlot(bucket, key, hashOf(key));
            var slot := Slot(key, hashOf(key), id);
            var bucket1 := if p < |bucket| then bucket[p := slot] else bucket + [slot];
            && BucketOk(hashOf, bucket1, b, length)
            && (forall s :: s in bucket1 <==> s == slot || (s in bucket && s.key != key))
  {
    hide FindSlot;
    var p := FindSlot(bucket, key, hashOf(key));
    var slot := Slot(key, hashOf(key), id);
    var bucket1 := if p < |bucket| then bucket[p := slot] else bucket + [slot];
    assert bucket1[p] == slot;
    forall s ensures s in bucket1 <==> s == slot || (s in bucket && s.key != key) {
      if s in bucket && s.key != key {
        var i :| 0 <= i < |bucket| && bucket[i] == s;
        assert bucket1[i] == s;
      }
      if s in bucket1 && s != slot {
        var i :| 0 <= i < |bucket1| && bucket1[i] == s;
        assert bucket[i] == s;
      }
    }
  }

  /** Taking the slot of a key out. */
  lemma DropIs(hashOf: Bytes -> nat, buckets: seq<seq<Slot>>, m: map<Bytes, nat>, key: Bytes)
    requires AllOk(hashOf, buckets) && Holds(hashOf, buckets, m)
    requires FindSlot(buckets[hashOf(key) % |buckets|], key, hashOf(key)) < |buckets[hashOf(key) % |buckets|]|
    ensures var b := hashOf(key) % |buckets|;
            var p := FindSlot(buckets[b], key, hashOf(key));
            var buckets1 := buckets[b := buckets[b][..p] + buckets[b][p + 1..]];
            AllOk(hashOf, buckets1) && Holds(hashOf, buckets1, m - {key})
  {
    hide FindSlot;
    var b := hashOf(key) % |buckets|;
    var bucket := buckets[b];
    var p := FindSlot(bucket, key, hashOf(key));
    DropFromBucket(hashOf, bucket, b, |buckets|, p);
    OneBucketChanges(hashOf, buckets, m, key, bucket[..p] + bucket[p + 1..], None);
  }

  lemma DropFromBucket(hashOf: Bytes -> nat, bucket: seq<Slot>, b: nat, length: nat, p: nat)
    requires length > 0 && BucketOk(hashOf, bucket, b, length) && p < |bucket|
    ensures var bucket1 := bucket[..p] + bucket[p + 1..];
            && BucketOk(hashOf, bucket1, b, length)
            && (forall s :: s in bucket1 <==> s in bucket && s.key != bucket[p].key)
  {
    var bucket1 := bucket[..p] + bucket[p + 1..];
    assert forall i :: 0 <= i < |bucket1| ==> bucket1[i] == if i < p then bucket[i] else bucket[i + 1];
    forall s ensures s in bucket1 <==> s in bucket && s.key != bucket[p].key {
      if s in bucket && s.key != bucket[p].key {
        var i :| 0 <= i < |bucket| && bucket[i] == s;
        assert if i < p then bucket1[i] == s else bucket1[i - 1] == s;
      }
      if s in bucket1 {
        var i :| 0 <= i < |bucket1| && bucket1[i] == s;
        assert s == bucket[if i < p then i else i + 1];
      }
    }
  }

  class HandleTable {
    const hashOf: Bytes -> nat
    var elems: nat
    var list: seq<seq<Slot>>
    /** Which handle each key has. */
    ghost var contents: map<Bytes, nat>

    ghost predicate Consistent()
      reads this
    {
      && AllOk(hashOf, list) && Holds(hashOf, list, contents)
      && elems == Total(list) && PowerOfTwo(|list|)
    }

    /** Between calls there are at least as many buckets as entries. */
    ghost predicate Valid()
      reads this
    {
      Consistent() && elems <= |list|
    }

    constructor (hashOf: Bytes -> nat)
      ensures Valid() && contents == map[] && this.hashOf == hashOf
    {
      this.hashOf := hashOf;
      elems, list := 0, [[], [], [], []];
      contents := map[];
      new;
      assert PowerOfTwo(4) && PowerOfTwo(2);
      EmptyBuckets(hashOf, list);
    }

    method Lookup(key: Bytes) returns (r: Option<nat>)
      requires Valid()
      ensures r == if key in contents then Some(contents[key]) else None
    {
      hide AllOk, Holds, Masked, PowerOfTwo;
      BucketsExist(hashOf, list);
      LookupIs(hashOf, list, contents, key);
      MaskIsRemainder(hashOf(key), |list|);
      var bucket := list[Masked(hashOf(key), |list| - 1)];
      var p := FindSlot(bucket, key, hashOf(key));
      r := if p < |bucket| then Some(bucket[p].id) else None;
    }

    /** Returns the handle that was replaced. */
    method Insert(key: Bytes, id: nat) returns (old_: Option<nat>)
      requires Valid()
      modifies this
      ensures Valid() && contents == old(contents)[key := id]
      ensures old_ == if key in old(contents) then Some(old(contents)[key]) else None
      ensures elems <= |old(list)| ==> |list| == |old(list)|
    {
      hide AllOk, Holds, PowerOfTwo, Masked;
      BucketsExist(hashOf, list);
      LookupIs(hashOf, list, contents, key);
      PutIs(hashOf, list, contents, key, id);
      MaskIsRemainder(hashOf(key), |list|);
      var b := Masked(hashOf(key), |list| - 1);
      var p := FindSlot(list[b], key, hashOf(key));
      var slot := Slot(key, hashOf(key), id);
      contents := contents[key := id];
      if p < |list[b]| {
        TotalUpdate(list, b, list[b][p := slot]);
        old_ := Some(list[b][p].id);
        list := list[b := list[b][p := slot]];
      } else {
        TotalUpdate(list, b, list[b] + [slot]);
        old_ := None;
        list := list[b := list[b] + [slot]];
        elems := elems + 1;
        if elems > |list| {
          Resize();
        }
      }
    }

    method Remove(key: Bytes) returns (r: Option<nat>)
      requires Valid()
      modifies this
      ensures Valid() && contents == old(contents) - {key}
      ensures r == if key in old(contents) then Some(old(contents)[key]) else None
    {
      hide AllOk, Holds, PowerOfTwo, Masked;
      BucketsExist(hashOf, list);
      LookupIs(hashOf, list, contents, key);
      MaskIsRemainder(hashOf(key), |list|);
      var b := Masked(hashOf(key), |list| - 1);
      var p := FindSlot(list[b], key, hashOf(key));
      if p < |list[b]| {
        DropIs(hashOf, list, contents, key);
        TotalUpdate(list, b, list[b][..p] + list[b][p + 1..]);
        r := Some(list[b][p].id);
        list := list[b := list[b][..p] + list[b][p + 1..]];
        elems := elems - 1;
        contents := contents - {key};
      } else {
        r := None;
      }
    }

    /** Moves every slot to the front of its bucket in a longer list. */
    method Resize()
      requires Consistent()
      modifies this
      ensures Valid() && contents == old(contents) && elems == old(elems)
      ensures |list| >= 4 && (|list| == 4 || |list| < 2 * elems)
    {
      hide AllOk, Holds, Total, PowerOfTwo, Masked;
      BucketsExist(hashOf, list);
      var newLength: nat := 4;
      FourIsPower();
      while newLength < elems
        invariant unchanged(this) && PowerOfTwo(newLength) && newLength >= 4 && (newLength == 4 || newLength < 2 * elems)
      {
        DoubleIsPower(newLength);
        newLength := newLength * 2;
      }
      var newList := EmptyLists(newLength);
      var old_ := list;
      EmptyBuckets(hashOf, newList);
      ghost var moved: map<Bytes, nat> := map[];
      NothingMoved(hashOf, list);
      NothingTotal(old_[..0]);
      for i := 0 to |old_|
        invariant unchanged(this) && |newList| == newLength
        invariant AllOk(hashOf, newList) && Holds(hashOf, newList, moved)
        invariant Moved(old_, contents, hashOf, moved, i, 0) && Total(newList) == Total(old_[..i])
      {
        var h := old_[i];
        var k := 0;
        while k < |h|
          invariant 0 <= k <= |h| && unchanged(this) && |newList| == newLength
          invariant AllOk(hashOf, newList) && Holds(hashOf, newList, moved)
          invariant Moved(old_, contents, hashOf, moved, i, k) && Total(newList) == Total(old_[..i]) + k
        {
          SlotMoves(old_, contents, hashOf, moved, i, k);
          MoveIs(hashOf, newList, moved, h[k]);
          MaskIsRemainder(h[k].hash, newLength);
          var b := Masked(h[k].hash, newLength - 1);
          TotalUpdate(newList, b, [h[k]] + newList[b]);
          newList := newList[b := [h[k]] + newList[b]];
          moved := moved[h[k].key := h[k].id];
          k := k + 1;
        }
        BucketMoved(old_, contents, hashOf, moved, i);
        TotalGrows(old_, i);
      }
      AllMoved(old_, contents, hashOf, moved);
      assert old_[..|old_|] == old_;
      list := newList;
    }
  }

  lemma BucketsExist(hashOf: Bytes -> nat, buckets: seq<seq<Slot>>)
    requires AllOk(hashOf, buckets)
    ensures buckets != []
  {
  }

  lemma FourIsPower()
    ensures PowerOfTwo(4)
  {
    assert PowerOfTwo(2);
  }

  lemma DoubleIsPower(n: nat)
    requires PowerOfTwo(n)
    ensures PowerOfTwo(2 * n)
  {
  }

  function EmptyLists(n: nat): (r: seq<seq<Slot>>)
    ensures |r| == n && forall i :: 0 <= i < n ==> r[i] == []
  {
    if n == 0 then [] else EmptyLists(n - 1) + [[]]
  }

  lemma EmptyBuckets(hashOf: Bytes -> nat, buckets: seq<seq<Slot>>)
    requires buckets != [] && forall i :: 0 <= i < |buckets| ==> buckets[i] == []
    ensures AllOk(hashOf, buckets) && Holds(hashOf, buckets, map[]) && Total(buckets) == 0
  {
    NothingTotal(buckets);
  }

  lemma {:induction false} NothingTotal(buckets: seq<seq<Slot>>)
    requires forall i :: 0 <= i < |buckets| ==> buckets[i] == []
    ensures Total(buckets) == 0
  {
    if buckets != [] {
      NothingTotal(buckets[..|buckets| - 1]);
    }
  }

  lemma TotalGrows(buckets: seq<seq<Slot>>, i: nat)
    requires i < |buckets|
    ensures Total(buckets[..i + 1]) == Total(buckets[..i]) + |buckets[i]|
  {
    assert buckets[..i + 1][..i] == buckets[..i];
  }

  /** The key's slot is before slot `k` of bucket `i`. */
  ghost predicate InFront(old_: seq<seq<Slot>>, hashOf: Bytes -> nat, key: Bytes, i: nat, k: nat)
    requires old_ != []
  {
    var b := hashOf(key) % |old_|;
    b < i || (b == i && FindSlot(old_[b], key, hashOf(key)) < k)
  }

  /** The part of the map whose slots have been moved. */
  ghost predicate Moved(old_: seq<seq<Slot>>, contents: map<Bytes, nat>, hashOf: Bytes -> nat, moved: map<Bytes, nat>, i: nat, k: nat)
    requires old_ != []
  {
    && (forall key :: key in moved <==> key in contents && InFront(old_, hashOf, key, i, k))
    && (forall key :: key in moved ==> moved[key] == contents[key])
  }

  lemma NothingMoved(hashOf: Bytes -> nat, old_: seq<seq<Slot>>)
    requires old_ != []
    ensures forall contents :: Moved(old_, contents, hashOf, map[], 0, 0)
  {
  }

  lemma SlotMoves(old_: seq<seq<Slot>>, contents: map<Bytes, nat>, hashOf: Bytes -> nat, moved: map<Bytes, nat>, i: nat, k: nat)
    requires AllOk(hashOf, old_) && Holds(hashOf, old_, contents)
    requires i < |old_| && k < |old_[i]| && Moved(old_, contents, hashOf, moved, i, k)
    ensures var s := old_[i][k];
            && s.key !in moved && s.hash == hashOf(s.key)
            && Moved(old_, contents, hashOf, moved[s.key := s.id], i, k + 1)
  {
    var s := old_[i][k];
    assert BucketOk(hashOf, old_[i], i, |old_|);
    assert s in old_[i];
    assert s == Slot(s.key, hashOf(s.key), s.id) && s.key in contents && contents[s.key] == s.id;
    var p := FindSlot(old_[i], s.key, s.hash);
    assert p <= k;
    assert old_[i][p].key == s.key;
    assert p == k;
    hide Holds, AllOk;
    forall key ensures InFront(old_, hashOf, key, i, k + 1) && key in contents <==>
                       key == s.key || (key in contents && InFront(old_, hashOf, key, i, k))
    {
      if hashOf(key) % |old_| == i {
        var q := FindSlot(old_[i], key, hashOf(key));
        assert q == k ==> old_[i][q].key == key;
      }
    }
  }

  /** One more slot at the front of its bucket. */
  lemma MoveIs(hashOf: Bytes -> nat, buckets: seq<seq<Slot>>, m: map<Bytes, nat>, s: Slot)
    requires AllOk(hashOf, buckets) && Holds(hashOf, buckets, m) && s.key !in m && s.hash == hashOf(s.key)
    ensures var buckets1 := buckets[s.hash % |buckets| := [s] + buckets[s.hash % |buckets|]];
            AllOk(hashOf, buckets1) && Holds(hashOf, buckets1, m[s.key := s.id])
  {
    var b := s.hash % |buckets|;
    var bucket := buckets[b];
    var buckets1, m1 := buckets[b := [s] + bucket], m[s.key := s.id];
    assert BucketOk(hashOf, bucket, b, |buckets|);
    forall i | 0 <= i < |bucket| ensures bucket[i].key != s.key {
      assert bucket[i] == Slot(bucket[i].key, hashOf(bucket[i].key), bucket[i].id) && bucket[i] in bucket;
    }
    assert BucketOk(hashOf, [s] + bucket, b, |buckets|);
    forall k, n ensures Slot(k, hashOf(k), n) in buckets1[hashOf(k) % |buckets1|] <==> k in m1 && m1[k] == n {
      var t := Slot(k, hashOf(k), n);
      assert t in buckets[hashOf(k) % |buckets|] <==> k in m && m[k] == n;
      assert t in [s] + bucket <==> t == s || t in bucket;
    }
  }

  lemma BucketMoved(old_: seq<seq<Slot>>, contents: map<Bytes, nat>, hashOf: Bytes -> nat, moved: map<Bytes, nat>, i: nat)
    requires AllOk(hashOf, old_) && Holds(hashOf, old_, contents)
    requires i < |old_| && Moved(old_, contents, hashOf, moved, i, |old_[i]|)
    ensures Moved(old_, contents, hashOf, moved, i + 1, 0)
  {
    forall key | key in contents
      ensures InFront(old_, hashOf, key, i, |old_[i]|) <==> InFront(old_, hashOf, key, i + 1, 0)
    {
      LookupIs(hashOf, old_, contents, key);
    }
  }

  lemma AllMoved(old_: seq<seq<Slot>>, contents: map<Bytes, nat>, hashOf: Bytes -> nat, moved: map<Bytes, nat>)
    requires old_ != [] && Moved(old_, contents, hashOf, moved, |old_|, 0)
    ensures moved == contents
  {
  }
}
