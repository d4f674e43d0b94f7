/** What an encoded message does to the message it is decoded into (pb_decode.c): scalars are replaced, repeated
    items are appended, submessages are merged, and of a oneof the last field stays. */
module NanopbMerge {
  import opened Nanopb

  ghost function BaseSlots(fields: seq<Field>, cur: Value): (r: seq<Slot>)
    ensures |r| == |fields|
  {
    if cur.Msg? && |cur.slots| == |fields| then cur.slots else DefaultSlots(fields)
  }

  /** What a field held before; of a oneof, nothing unless it is the current one. */
  ghost function Before(f: Field, cur: Slot): Value {
    if cur.One? && (cur.has || !f.htype.Oneof?) then cur.value else DefaultValue(f.ltype)
  }

  ghost function ItemsOf(s: Slot): seq<Value> {
    if s.Many? then s.items else []
  }

  ghost function MergeValue(t: LType, cur: Value, v: Value): Value
    decreases t, 0
  {
    if t.MessageT? && v.Msg? && |v.slots| == |t.fields|
    then Msg(MergeSlots(t.fields, BaseSlots(t.fields, cur), v.slots, |t.fields|))
    else v
  }

  /** A field that is present in the message `s` comes from. */
  ghost function MergeSlot(f: Field, cur: Slot, s: Slot): Slot
    decreases f
  {
    if s.Many? then Many(ItemsOf(cur) + NormItems(f.ltype, s.items))
    else One(true, MergeValue(f.ltype, Before(f, cur), s.value))
  }

  /** Another field of the oneof is among the first `k` fields and present. */
  ghost predicate Displaced(fields: seq<Field>, m: seq<Slot>, i: nat, k: nat)
    requires i < |fields| == |m| && k <= |fields|
  {
    fields[i].htype.Oneof? && exists j :: 0 <= j < k && j != i && fields[j].htype == fields[i].htype && Present(fields[j], m[j])
  }

  /** Field `i` when the first `k` fields of the message `m` have been merged into `slots`. */
  ghost function MergedAt(fields: seq<Field>, slots: seq<Slot>, m: seq<Slot>, k: nat, i: nat): Slot
    requires |slots| == |fields| == |m| && k <= |fields| && i < |fields|
    decreases fields, 0
  {
    if i < k && Present(fields[i], m[i]) then MergeSlot(fields[i], slots[i], m[i])
    else if Displaced(fields, m, i, k) then DefaultSlot(fields[i])
    else slots[i]
  }

  ghost function MergeFirst(fields: seq<Field>, slots: seq<Slot>, m: seq<Slot>, k: nat, n: nat): (r: seq<Slot>)
    requires |slots| == |fields| == |m| && k <= |fields| && n <= |fields|
    ensures |r| == n && forall i :: 0 <= i < n ==> r[i] == MergedAt(fields, slots, m, k, i)
    decreases fields, 1, n
  {
    if n == 0 then [] else MergeFirst(fields, slots, m, k, n - 1) + [MergedAt(fields, slots, m, k, n - 1)]
  }

  /** The message when the first `k` fields of `m` have been merged into `slots`. */
  ghost function MergeSlots(fields: seq<Field>, slots: seq<Slot>, m: seq<Slot>, k: nat): (r: seq<Slot>)
    requires |slots| == |fields| == |m| && k <= |fields|
    ensures |r| == |fields| && forall i :: 0 <= i < |fields| ==> r[i] == MergedAt(fields, slots, m, k, i)
    decreases fields, 2
  {
    MergeFirst(fields, slots, m, k, |fields|)
  }

  /** Byte strings fit into their room, and repeated items into the room that is left. */
  ghost predicate FitsValue(t: LType, cur: Value, v: Value)
    decreases t, 0
  {
    match t
    case BytesT(max) => v.Blob? && |v.b| <= max
    case MessageT(fields) => v.Msg? && |v.slots| == |fields| && FitsSlots(fields, BaseSlots(fields, cur), v.slots, 0)
    case _ => true
  }

  ghost predicate FitsItems(f: Field, done: nat, items: seq<Value>)
    decreases f, 0
  {
    && done + |items| <= (if f.htype.Repeated? then f.htype.max else 0)
    && forall k :: 0 <= k < |items| ==> FitsValue(f.ltype, DefaultValue(f.ltype), items[k])
  }

  ghost predicate FitsSlot(f: Field, cur: Slot, s: Slot)
    decreases f, 1
  {
    Present(f, s) ==>
      if s.Many? then FitsItems(f, |ItemsOf(cur)|, s.items) else FitsValue(f.ltype, Before(f, cur), s.value)
  }

  /** The fields of `m` from number `k` on fit into the message. */
  ghost predicate FitsSlots(fields: seq<Field>, slots: seq<Slot>, m: seq<Slot>, k: nat)
    requires |slots| == |fields| == |m|
    decreases fields, 2
  {
    forall i :: k <= i < |fields| ==> FitsSlot(fields[i], slots[i], m[i])
  }

  // ----- merging into a fresh message -----

  lemma {:induction false} MergeIntoDefault(t: LType, v: Value)
    requires TypedValue(t, v)
    ensures MergeValue(t, DefaultValue(t), v) == NormValue(t, v)
    ensures FitsValue(t, DefaultValue(t), v) <==> ValueWithin(t, v)
    decreases t, 0
  {
    if t.MessageT? {
      FreshMerge(t.fields, v.slots);
    }
  }

  lemma {:induction false} FreshMerge(fields: seq<Field>, m: seq<Slot>)
    requires Typed(fields, m)
    ensures MergeSlots(fields, DefaultSlots(fields), m, |fields|) == NormSlots(fields, m)
    ensures FitsSlots(fields, DefaultSlots(fields), m, 0) <==> AllWithin(fields, m)
    decreases fields, 2
  {
    hide MergeSlot, NormSlot, FitsSlot, SlotWithin, TypedSlot, MergeSlots, NormSlots;
    forall i | 0 <= i < |fields|
      ensures MergedAt(fields, DefaultSlots(fields), m, |fields|, i) == NormSlot(fields[i], m[i])
      ensures FitsSlot(fields[i], DefaultSlots(fields)[i], m[i]) <==> SlotWithin(fields[i], m[i])
    {
      assert TypedSlot(fields[i], m[i]);
      FreshSlot(fields[i], m[i]);
    }
    MergeIsPointwise(fields, DefaultSlots(fields), m, |fields|, NormSlots(fields, m));
  }

  /** A merge that is known slot by slot is known. */
  lemma MergeIsPointwise(fields: seq<Field>, slots: seq<Slot>, m: seq<Slot>, k: nat, r: seq<Slot>)
    requires |slots| == |fields| == |m| == |r| && k <= |fields|
    requires forall i :: 0 <= i < |fields| ==> r[i] == MergedAt(fields, slots, m, k, i)
    ensures MergeSlots(fields, slots, m, k) == r
  {
    hide MergedAt;
  }

  lemma {:induction false} FreshSlot(f: Field, s: Slot)
    requires TypedSlot(f, s)
    ensures NormSlot(f, s) == if Present(f, s) then MergeSlot(f, DefaultSlot(f), s) else DefaultSlot(f)
    ensures FitsSlot(f, DefaultSlot(f), s) <==> SlotWithin(f, s)
    decreases f, 1
  {
    hide NormValue, MergeValue, FitsValue, ValueWithin, IsZero, TypedValue;
    if f.htype.Repeated? {
      forall k | 0 <= k < |s.items|
        ensures FitsValue(f.ltype, DefaultValue(f.ltype), s.items[k]) <==> ValueWithin(f.ltype, s.items[k])
      {
        MergeIntoDefault(f.ltype, s.items[k]);
      }
      assert [] + NormItems(f.ltype, s.items) == NormItems(f.ltype, s.items);
      assert s.items == [] ==> NormItems(f.ltype, s.items) == [];
    } else if Present(f, s) {
      MergeIntoDefault(f.ltype, s.value);
    }
  }
}
