/** Group commit: the queue of writers, and the leader that writes for several of them
    (db/db_impl.cc). Every method is one stretch of code that runs under the mutex. */
module Writers {
  import opened Keys
  import opened WriteBatch

  /** A thread in `Write`. A write without a batch asks for a memtable switch only. */
  datatype Writer = Writer(id: nat, batch: Option<seq<Update>>, sync: bool)

  ghost predicate BatchFits(w: Writer) {
    w.batch.Some? ==> AllFit(w.batch.value)
  }

  ghost predicate AllBatchesFit(ws: seq<Writer>) {
    forall i :: 0 <= i < |ws| ==> BatchFits(ws[i])
  }

  /** The updates of some writers, one batch after another. */
  function Joined(ws: seq<Writer>): seq<Update> {
    if ws == [] then []
    else Joined(ws[..|ws| - 1]) + UpdatesOf(ws[|ws| - 1])
  }

  function UpdatesOf(w: Writer): seq<Update> {
    if w.batch.Some? then w.batch.value else []
  }

  function ByteSize(us: seq<Update>): nat
    requires AllFit(us)
  {
    HEADER + |Encoded(us)|
  }

  ghost function BatchSize(w: Writer): nat {
    if w.batch.Some? && AllFit(w.batch.value) then ByteSize(w.batch.value) else 0
  }

  /** How large a group may become: a small write is not to wait for much more than itself. */
  function MaxSize(first: nat): nat {
    if first <= 0x2_0000 then first + 0x2_0000 else 0x10_0000
  }

  /** Writer `w` may join a group of the given size behind the leader. */
  ghost predicate MayJoin(leader: Writer, size: nat, w: Writer) {
    (w.sync ==> leader.sync) && (w.batch.Some? ==> size + BatchSize(w) <= MaxSize(BatchSize(leader)))
  }

  /** The batch sizes of the first `n` writers. */
  ghost function SizeOf(ws: seq<Writer>, n: nat): nat
    requires n <= |ws|
  {
    if n == 0 then 0 else SizeOf(ws, n - 1) + BatchSize(ws[n - 1])
  }

  /** A group is the longest run of writers, from the leader on, that may all join. */
  ghost predicate IsGroup(ws: seq<Writer>, n: nat) {
    && 1 <= n <= |ws|
    && (forall i :: 1 <= i < n ==> MayJoin(ws[0], SizeOf(ws, i), ws[i]))
    && (n < |ws| ==> !MayJoin(ws[0], SizeOf(ws, n), ws[n]))
  }

  /** The group's batch is the batches of its members in queue order. */
  method BuildBatchGroup(writers: seq<Writer>) returns (result: seq<Update>, n: nat)
    requires AllBatchesFit(writers) && writers != [] && writers[0].batch.Some?
    ensures IsGroup(writers, n) && result == Joined(writers[..n])
    ensures GroupInBytes(writers, n)
  {
    hide AllFit, MaxSize, Joined, SizeOf, BatchSize, MayJoin, ByteSize, GroupInBytes;
    GroupsAreBounded(writers);
    var first := writers[0];
    result := first.batch.value;
    SizeStep(writers, 0);
    var size := ByteSize(first.batch.value);
    var maxSize := MaxSize(size);
    OneJoined(writers);
    n := 1;
    while n < |writers|
      invariant 1 <= n <= |writers| && result == Joined(writers[..n]) && size == SizeOf(writers, n)
      invariant forall i :: 1 <= i < n ==> MayJoin(first, SizeOf(writers, i), writers[i])
    {
      var w := writers[n];
      SizeStep(writers, n);
      Decide(writers, n, size);
      if w.sync && !first.sync {
        return;
      }
      JoinOne(writers, n);
      if w.batch.Some? {
        size := size + ByteSize(w.batch.value);
        if size > maxSize {
          return;
        }
        result := result + w.batch.value;
      }
      n := n + 1;
    }
  }

  lemma SizeStep(ws: seq<Writer>, n: nat)
    requires AllBatchesFit(ws) && n < |ws|
    ensures ws[n].batch.Some? ==> AllFit(ws[n].batch.value)
    ensures SizeOf(ws, n + 1) == SizeOf(ws, n) + if ws[n].batch.Some? then ByteSize(ws[n].batch.value) else 0
    ensures SizeOf(ws, 0) == 0
  {
    hide AllFit, Encoded;
    assert BatchFits(ws[n]);
  }

  lemma Decide(ws: seq<Writer>, n: nat, size: nat)
    requires AllBatchesFit(ws) && n < |ws| && ws[0].batch.Some? && AllFit(ws[0].batch.value)
    requires ws[n].batch.Some? ==> AllFit(ws[n].batch.value)
    ensures MayJoin(ws[0], size, ws[n]) <==>
            (ws[n].sync ==> ws[0].sync)
            && (ws[n].batch.Some? ==> size + ByteSize(ws[n].batch.value) <= MaxSize(ByteSize(ws[0].batch.value)))
  {
    hide AllFit, Encoded, MaxSize;
  }

  lemma OneJoined(ws: seq<Writer>)
    requires ws != [] && ws[0].batch.Some?
    ensures Joined(ws[..1]) == ws[0].batch.value
  {
    assert ws[..1][..0] == [];
  }

  lemma JoinOne(ws: seq<Writer>, n: nat)
    requires n < |ws|
    ensures Joined(ws[..n + 1]) == Joined(ws[..n]) + UpdatesOf(ws[n])
    ensures ws[n].batch.None? ==> Joined(ws[..n + 1]) == Joined(ws[..n])
  {
    assert ws[..n + 1][..n] == ws[..n];
  }

  /** The sum of the sizes bounds the size of the joined batch. */
  lemma {:induction false} JoinedSize(ws: seq<Writer>, n: nat)
    requires AllBatchesFit(ws) && n <= |ws|
    ensures AllFit(Joined(ws[..n])) && |Encoded(Joined(ws[..n]))| <= SizeOf(ws, n)
    ensures n > 0 && ws[0].batch.Some? ==> ByteSize(Joined(ws[..n])) <= SizeOf(ws, n)
  {
    hide Encoded, AllFit, Joined;
    NothingFits();
    NoneJoined(ws);
    if n > 0 {
      JoinedSize(ws, n - 1);
      JoinOne(ws, n - 1);
      assert BatchFits(ws[n - 1]);
      EncodedJoins(Joined(ws[..n - 1]), UpdatesOf(ws[n - 1]));
    }
  }

  lemma NoneJoined(ws: seq<Writer>)
    ensures Joined(ws[..0]) == []
  {
  }

  lemma NothingFits()
    ensures AllFit([]) && Encoded([]) == []
  {
  }

  /** How many of the first `n` writers bring a batch. */
  ghost function Batches(ws: seq<Writer>, n: nat): nat
    requires n <= |ws|
  {
    if n == 0 then 0 else Batches(ws, n - 1) + if ws[n - 1].batch.Some? then 1 else 0
  }

  /** The summed sizes: the bytes of all updates, and a header of 12 bytes for each batch. */
  lemma {:induction false} SizeInBytes(ws: seq<Writer>, n: nat)
    requires AllBatchesFit(ws) && n <= |ws|
    ensures AllFit(Joined(ws[..n])) && SizeOf(ws, n) == 12 * Batches(ws, n) + |Encoded(Joined(ws[..n]))|
  {
    hide Encoded, AllFit, Joined;
    NothingFits();
    NoneJoined(ws);
    if n > 0 {
      SizeInBytes(ws, n - 1);
      JoinOne(ws, n - 1);
      assert BatchFits(ws[n - 1]);
      EncodedJoins(Joined(ws[..n - 1]), UpdatesOf(ws[n - 1]));
    }
  }

  /** The bounds of a group, in bytes. `own` is the leader's batch, with its header. A small leader's group
      is at most 128 KiB larger; a large leader's is its own batch or at most 1 MiB; and the first writer
      left out asks for a sync that the leader does not, or its batch would break the bound. */
  ghost predicate GroupInBytes(ws: seq<Writer>, n: nat) {
    && 1 <= n <= |ws| && ws[0].batch.Some? && AllFit(ws[0].batch.value) && AllFit(Joined(ws[..n]))
    && var own, joined := 12 + |Encoded(ws[0].batch.value)|, 12 + |Encoded(Joined(ws[..n]))|;
       && (own <= 131072 ==> joined <= own + 131072)
       && (own > 131072 ==> Joined(ws[..n]) == ws[0].batch.value || joined <= 1048576)
       && (forall i :: 0 <= i < n && ws[i].sync ==> ws[0].sync)
       && (n < |ws| ==>
             || (ws[n].sync && !ws[0].sync)
             || (ws[n].batch.Some? && AllFit(Joined(ws[..n + 1]))
                 && 12 * Batches(ws, n + 1) + |Encoded(Joined(ws[..n + 1]))| > (if own <= 131072 then own + 131072 else 1048576)))
  }

  /** A group is the longest run that keeps the bounds. */
  lemma IsGroupInBytes(ws: seq<Writer>, n: nat)
    requires AllBatchesFit(ws) && ws != [] && ws[0].batch.Some? && IsGroup(ws, n)
    ensures GroupInBytes(ws, n)
  {
    hide AllFit, Encoded, Joined, SizeOf, Batches;
    assert BatchFits(ws[0]);
    OneJoined(ws);
    GroupIsBounded(ws, n);
    if n < |ws| {
      SizeStep(ws, n);
      SizeInBytes(ws, n + 1);
      SizeStep(ws, 0);
    }
  }

  lemma GroupsAreBounded(ws: seq<Writer>)
    requires AllBatchesFit(ws) && ws != [] && ws[0].batch.Some?
    ensures forall n :: IsGroup(ws, n) ==> GroupInBytes(ws, n)
  {
    hide IsGroup, GroupInBytes;
    forall n | IsGroup(ws, n) ensures GroupInBytes(ws, n) {
      IsGroupInBytes(ws, n);
    }
  }

  /** A group obeys the byte bound: its batch is the leader's own, or within the limit. */
  lemma GroupIsBounded(ws: seq<Writer>, n: nat)
    requires AllBatchesFit(ws) && ws != [] && ws[0].batch.Some? && IsGroup(ws, n)
    ensures AllFit(ws[0].batch.value) && AllFit(Joined(ws[..n]))
    ensures Joined(ws[..n]) == ws[0].batch.value
            || ByteSize(Joined(ws[..n])) <= MaxSize(ByteSize(ws[0].batch.value))
    ensures forall i :: 0 <= i < n && ws[i].sync ==> ws[0].sync
    ensures var own, joined := |Encoded(ws[0].batch.value)| + 12, |Encoded(Joined(ws[..n]))| + 12;
            && (own <= 131072 ==> joined <= own + 131072)
            && (own > 131072 ==> Joined(ws[..n]) == ws[0].batch.value || joined <= 1048576)
  {
    hide AllFit, Encoded, Joined, SizeOf;
    assert BatchFits(ws[0]);
    forall i | 0 <= i < n && ws[i].sync ensures ws[0].sync {
      assert i >= 1 ==> MayJoin(ws[0], SizeOf(ws, i), ws[i]);
    }
    BoundedUpTo(ws, n);
    JoinedSize(ws, n);
  }

  lemma {:induction false} BoundedUpTo(ws: seq<Writer>, n: nat)
    requires ws != [] && ws[0].batch.Some? && 1 <= n <= |ws|
    requires forall i :: 1 <= i < n ==> MayJoin(ws[0], SizeOf(ws, i), ws[i])
    ensures Joined(ws[..n]) == ws[0].batch.value || SizeOf(ws, n) <= MaxSize(BatchSize(ws[0]))
  {
    hide AllFit, BatchSize, MaxSize, Joined;
    if n > 1 {
      BoundedUpTo(ws, n - 1);
      JoinOne(ws, n - 1);
      assert MayJoin(ws[0], SizeOf(ws, n - 1), ws[n - 1]);
      NoBatchNoSize(ws[n - 1]);
    } else {
      OneJoined(ws);
    }
  }

  lemma NoBatchNoSize(w: Writer)
    ensures w.batch.None? ==> BatchSize(w) == 0
  {
  }

  /** One finished group: its members, the first sequence number and the updates that took numbers (none
      if there was nothing to write or no room for it), and whether all went well. */
  datatype Group = Group(members: seq<Writer>, first: nat, updates: seq<Update>, ok: bool)

  ghost function Members(groups: seq<Group>): seq<Writer> {
    if groups == [] then [] else Members(groups[..|groups| - 1]) + groups[|groups| - 1].members
  }

  /** How many sequence numbers the groups took. */
  ghost function Taken(groups: seq<Group>): nat {
    if groups == [] then 0 else Taken(groups[..|groups| - 1]) + |groups[|groups| - 1].updates|
  }

  /** The updates under consecutive sequence numbers. */
  ghost function Numbered(first: nat, us: seq<Update>): seq<(nat, Update)> {
    if us == [] then [] else Numbered(first, us[..|us| - 1]) + [(first + |us| - 1, us[|us| - 1])]
  }

  /** What the groups that went well put into the memtable, in order. */
  ghost function Applied(groups: seq<Group>): seq<(nat, Update)> {
    if groups == [] then []
    else
      var g := groups[|groups| - 1];
      Applied(groups[..|groups| - 1]) + if g.ok then Numbered(g.first, g.updates) else []
  }

  /** No sync writer behind a leader that does not sync, and no batch over the limit. */
  ghost predicate GroupRule(members: seq<Writer>) {
    && members != [] && members[0].batch.Some?
    && (forall i :: 0 <= i < |members| && members[i].sync ==> members[0].sync)
    && AllFit(members[0].batch.value) && AllFit(Joined(members))
    && (Joined(members) == members[0].batch.value
        || ByteSize(Joined(members)) <= MaxSize(ByteSize(members[0].batch.value)))
  }

  ghost predicate GroupOk(g: Group) {
    || (g.updates == [] && |g.members| == 1 && (g.ok ==> g.members[0].batch.None?))
    || (GroupRule(g.members) && g.updates == Joined(g.members))
  }

  /** Each group starts where the one before it ended. */
  ghost predicate GroupsOk(groups: seq<Group>) {
    forall i :: 0 <= i < |groups| ==> GroupOk(groups[i]) && groups[i].first == Taken(groups[..i]) + 1
  }

  ghost predicate DistinctIds(ws: seq<Writer>) {
    forall i, j :: 0 <= i < j < |ws| ==> ws[i].id != ws[j].id
  }

  /** Exactly the given writers were told that they are done. */
  ghost predicate DoneAre(done: map<nat, bool>, ws: seq<Writer>) {
    forall id :: id in done <==> exists i :: 0 <= i < |ws| && ws[i].id == id
  }

  /** Each member of a group was told the outcome of its group. */
  ghost predicate OutcomesAre(done: map<nat, bool>, groups: seq<Group>) {
    forall k, j :: 0 <= k < |groups| && 0 <= j < |groups[k].members| ==>
      groups[k].members[j].id in done && done[groups[k].members[j].id] == groups[k].ok
  }

  datatype Phase = Idle | Grouped(updates: Option<seq<Update>>, room: bool) | Written(updates: Option<seq<Update>>, ok: bool)

  class WriteQueue {
    var writers: seq<Writer>
    /** The writers that were told that they are done, and whether their write went well. */
    var done: map<nat, bool>
    var lastSequence: nat
    var memtable: seq<(nat, Update)>
    var phase: Phase
    /** How many writers, from the front on, are in the group being written. */
    var leading: nat
    /** All writers in the order they entered the queue, and the groups finished so far. */
    ghost var entered: seq<Writer>
    ghost var groups: seq<Group>

    /** The group being written: a front part of the queue that keeps the rules. */
    ghost predicate LeadingOk()
      reads this
    {
      && (phase.Idle? <==> leading == 0) && leading <= |writers|
      && (phase.Grouped? ==>
            if phase.updates.Some? then phase.room && GroupRule(writers[..leading]) && phase.updates.value == Joined(writers[..leading])
            else leading == 1 && (phase.room ==> writers[0].batch.None?))
      && (phase.Written? ==>
            if phase.updates.Some? then GroupRule(writers[..leading]) && phase.updates.value == Joined(writers[..leading])
            else leading == 1 && (phase.ok ==> writers[0].batch.None?))
    }

    ghost function BeingApplied(): seq<(nat, Update)>
      reads this
    {
      if phase.Written? && phase.ok && phase.updates.Some? then Numbered(lastSequence + 1, phase.updates.value) else []
    }

    ghost predicate Valid()
      reads this
    {
      && entered == Members(groups) + writers
      && DistinctIds(entered) && AllBatchesFit(writers)
      && DoneAre(done, Members(groups)) && OutcomesAre(done, groups)
      && GroupsOk(groups)
      && lastSequence == Taken(groups)
      && memtable == Applied(groups) + BeingApplied()
      && LeadingOk()
    }

    constructor ()
      ensures Valid() && entered == [] && lastSequence == 0
    {
      writers, done, lastSequence, memtable, phase, leading := [], map[], 0, [], Idle, 0;
      entered, groups := [], [];
    }

    /** A thread enters the queue; a group may be under way. */
    method Enter(w: Writer)
      requires Valid() && BatchFits(w) && forall x :: x in entered ==> x.id != w.id
      modifies this
      ensures Valid() && entered == old(entered) + [w] && groups == old(groups) && lastSequence == old(lastSequence)
    {
      hide Members, Taken, Applied, GroupsOk, GroupRule, Joined, AllFit, Numbered;
      assert (writers + [w])[..leading] == writers[..leading];
      assert Members(groups) + (writers + [w]) == entered + [w];
      writers := writers + [w];
      entered := entered + [w];
    }

    /** The writer at the front, which no leader has taken along, leads: it makes room and builds a group. */
    method Lead(room: bool)
      requires Valid() && phase.Idle? && writers != []
      modifies this
      ensures Valid() && !phase.Idle? && entered == old(entered) && groups == old(groups) && lastSequence == old(lastSequence)
      ensures writers == old(writers)
      ensures room && writers[0].batch.Some? ==> phase.Grouped? && phase.updates.Some? && IsGroup(writers, leading)
    {
      hide Members, Taken, Applied, GroupsOk, GroupRule, Joined, AllFit, Numbered, IsGroup, AllBatchesFit;
      if room && writers[0].batch.Some? {
        var updates, n := BuildBatchGroup(writers);
        GroupKeepsRule(writers, n);
        phase := Grouped(Some(updates), true);
        leading := n;
      } else {
        phase := Grouped(None, room);
        leading := 1;
      }
    }

    /** Without the mutex: log, sync if the leader asks for it, insert into the memtable. */
    method WriteGroup(logged: bool, synced: bool)
      requires Valid() && phase.Grouped?
      modifies this
      ensures Valid() && phase.Written? && entered == old(entered) && groups == old(groups) && lastSequence == old(lastSequence)
      ensures leading == old(leading) && writers == old(writers) && phase.updates == old(phase.updates)
      ensures phase.ok <==> if phase.updates.Some? then logged && (writers[0].sync ==> synced) else old(phase.room)
    {
      hide Members, Taken, Applied, GroupsOk, GroupRule, Joined, AllFit, DistinctIds, AllBatchesFit, DoneAre, OutcomesAre;
      RuleMeansMembers(writers, leading);
      if phase.updates.Some? {
        var ok := logged && (writers[0].sync ==> synced);
        if ok {
          var updates := phase.updates.value;
          ghost var before := memtable;
          assert Applied(groups) + [] == Applied(groups);
          NothingNumbered(lastSequence + 1, updates);
          for i := 0 to |updates|
            invariant memtable == before + Numbered(lastSequence + 1, updates[..i])
            invariant unchanged(this`writers, this`phase, this`leading, this`lastSequence, this`done, this`entered, this`groups)
          {
            OneNumbered(lastSequence + 1, updates, i);
            memtable := memtable + [(lastSequence + 1 + i, updates[i])];
          }
          assert updates[..|updates|] == updates;
        }
        phase := Written(phase.updates, ok);
      } else {
        phase := Written(None, phase.room);
      }
    }

    /** With the mutex again: the numbers are taken, whatever the outcome, and the group leaves the queue. */
    method Release()
      requires Valid() && phase.Written?
      modifies this
      ensures Valid() && phase.Idle? && entered == old(entered) && memtable == old(memtable)
      ensures lastSequence >= old(lastSequence) && writers == old(writers[leading..])
      ensures forall i :: 0 <= i < old(leading) ==>
                old(writers)[i].id in done && done[old(writers)[i].id] == old(phase.ok)
      ensures forall id :: id in done <==> id in old(done) || exists i :: 0 <= i < old(leading) && old(writers)[i].id == id
      ensures forall id :: id in old(done) ==> done[id] == old(done)[id]
      ensures groups == old(groups) + [Group(old(writers[..leading]), old(lastSequence) + 1,
                                             if old(phase.updates).Some? then old(phase.updates).value else [], old(phase.ok))]
    {
      hide GroupRule, Joined, AllFit, Numbered, Applied, Members, Taken, GroupsOk, DoneAre, OutcomesAre, DistinctIds, MarkDone, AllBatchesFit;
      TailFits(writers, leading);
      ghost var g := Group(writers[..leading], lastSequence + 1,
                           if phase.updates.Some? then phase.updates.value else [], phase.ok);
      GroupGoes(groups, writers, leading, g);
      AppliedGrows(groups, g);
      NothingNumbered(g.first, []);
      assert memtable + [] == memtable;
      if phase.updates.Some? {
        lastSequence := lastSequence + |phase.updates.value|;
      }
      ghost var members := Members(groups);
      DoneMembers(members, writers[..leading], done, phase.ok);
      assert entered == members + writers[..leading] + writers[leading..];
      MarksTell(done, members, writers[..leading], writers[leading..], phase.ok);
      OutcomesGrow(done, groups, writers[leading..], g);
      var rest, marked := PopGroup(writers, leading, done, phase.ok);
      writers, done := rest, marked;
      phase, leading := Idle, 0;
      groups := groups + [g];
    }

    /** Whoever has entered and is told of success finds each of its updates in the memtable. */
    lemma ToldSuccess(w: Writer, i: nat) returns (n: nat)
      requires Valid() && w in entered && w.id in done && done[w.id] && i < |UpdatesOf(w)|
      ensures w in Members(groups) && (n, UpdatesOf(w)[i]) in memtable
    {
      hide GroupRule, Applied, Members, Taken, GroupsOk, OutcomesAre, LeadingOk, AllBatchesFit;
      var members := Members(groups);
      var a :| 0 <= a < |members| && members[a].id == w.id;
      var b :| 0 <= b < |entered| && entered[b] == w;
      assert entered[a] == members[a];
      var k, j := SuccessMeansApplied(done, groups, w, i);
      n := groups[k].first + |Joined(groups[k].members[..j])| + i;
    }
  }

  lemma TailFits(ws: seq<Writer>, n: nat)
    requires AllBatchesFit(ws) && n <= |ws|
    ensures AllBatchesFit(ws[n..])
  {
    hide BatchFits;
  }

  function MarkDone(done: map<nat, bool>, ws: seq<Writer>, ok: bool): map<nat, bool> {
    if ws == [] then done else MarkDone(done, ws[..|ws| - 1], ok)[ws[|ws| - 1].id := ok]
  }

  method PopGroup(writers: seq<Writer>, n: nat, done: map<nat, bool>, ok: bool) returns (rest: seq<Writer>, marked: map<nat, bool>)
    requires n <= |writers|
    ensures rest == writers[n..] && marked == MarkDone(done, writers[..n], ok)
  {
    rest, marked := writers, done;
    var popped := 0;
    while popped < n
      invariant 0 <= popped <= n && rest == writers[popped..] && marked == MarkDone(done, writers[..popped], ok)
    {
      var ready := rest[0];
      rest := rest[1..];
      marked := marked[ready.id := ok];
      assert writers[..popped + 1][..popped] == writers[..popped];
      popped := popped + 1;
    }
  }

  lemma {:induction false} MarkedIds(done: map<nat, bool>, ws: seq<Writer>, ok: bool, id: nat)
    ensures id in MarkDone(done, ws, ok) <==> id in done || exists i :: 0 <= i < |ws| && ws[i].id == id
    ensures (exists i :: 0 <= i < |ws| && ws[i].id == id) ==> MarkDone(done, ws, ok)[id] == ok
    ensures id in done && !(exists i :: 0 <= i < |ws| && ws[i].id == id) ==> MarkDone(done, ws, ok)[id] == done[id]
  {
    if ws != [] {
      var shorter := ws[..|ws| - 1];
      MarkedIds(done, shorter, ok, id);
      assert forall i :: 0 <= i < |shorter| ==> shorter[i] == ws[i];
    }
  }

  lemma DoneMembers(members: seq<Writer>, more: seq<Writer>, done: map<nat, bool>, ok: bool)
    requires DoneAre(done, members)
    ensures DoneAre(MarkDone(done, more, ok), members + more)
  {
    hide MarkDone;
    var all := members + more;
    forall id: nat ensures id in MarkDone(done, more, ok) <==> exists i :: 0 <= i < |all| && all[i].id == id {
      MarkedIds(done, more, ok, id);
      assert forall i :: 0 <= i < |members| ==> all[i] == members[i];
      assert forall i :: 0 <= i < |more| ==> all[|members| + i] == more[i];
      if i :| 0 <= i < |all| && all[i].id == id {
        assert if i < |members| then members[i].id == id else more[i - |members|].id == id;
      }
    }
  }

  /** Marking a group tells its members, and changes nothing for the writers before them. */
  lemma MarksTell(done: map<nat, bool>, members: seq<Writer>, group: seq<Writer>, rest: seq<Writer>, ok: bool)
    requires DoneAre(done, members) && DistinctIds(members + group + rest)
    ensures var marked := MarkDone(done, group, ok);
            && (forall i :: 0 <= i < |group| ==> group[i].id in marked && marked[group[i].id] == ok)
            && (forall id :: id in marked <==> id in done || exists i :: 0 <= i < |group| && group[i].id == id)
            && (forall id :: id in done ==> marked[id] == done[id])
  {
    hide MarkDone;
    var marked, all := MarkDone(done, group, ok), members + group + rest;
    forall id: nat
      ensures id in marked <==> id in done || exists i :: 0 <= i < |group| && group[i].id == id
      ensures (exists i :: 0 <= i < |group| && group[i].id == id) ==> marked[id] == ok
      ensures id in done ==> marked[id] == done[id]
    {
      MarkedIds(done, group, ok, id);
      if id in done {
        var i :| 0 <= i < |members| && members[i].id == id;
        forall j | 0 <= j < |group| ensures group[j].id != id {
          assert all[i] == members[i] && all[|members| + j] == group[j];
        }
      }
    }
  }

  lemma OutcomesGrow(done: map<nat, bool>, groups: seq<Group>, rest: seq<Writer>, g: Group)
    requires OutcomesAre(done, groups) && DoneAre(done, Members(groups))
    requires DistinctIds(Members(groups) + g.members + rest)
    ensures OutcomesAre(MarkDone(done, g.members, g.ok), groups + [g])
  {
    hide MarkDone, Members, DistinctIds, DoneAre;
    MarksTell(done, Members(groups), g.members, rest, g.ok);
    var groups1 := groups + [g];
    assert forall k :: 0 <= k < |groups| ==> groups1[k] == groups[k];
  }

  lemma GroupKeepsRule(ws: seq<Writer>, n: nat)
    requires AllBatchesFit(ws) && ws != [] && ws[0].batch.Some? && IsGroup(ws, n)
    ensures 1 <= n <= |ws| && GroupRule(ws[..n])
  {
    hide AllFit, Encoded, MaxSize, Joined;
    GroupIsBounded(ws, n);
  }

  lemma RuleMeansMembers(ws: seq<Writer>, n: nat)
    requires n <= |ws|
    ensures GroupRule(ws[..n]) ==> n > 0
  {
    hide AllFit, Encoded, MaxSize, Joined;
  }

  lemma NothingNumbered(first: nat, us: seq<Update>)
    ensures Numbered(first, us[..0]) == []
  {
  }

  lemma OneNumbered(first: nat, us: seq<Update>, i: nat)
    requires i < |us|
    ensures Numbered(first, us[..i + 1]) == Numbered(first, us[..i]) + [(first + i, us[i])]
  {
    assert us[..i + 1][..i] == us[..i];
  }

  lemma GroupGoes(groups: seq<Group>, ws: seq<Writer>, n: nat, g: Group)
    requires GroupsOk(groups) && n <= |ws| && g.members == ws[..n] && GroupOk(g) && g.first == Taken(groups) + 1
    ensures GroupsOk(groups + [g]) && Members(groups + [g]) == Members(groups) + ws[..n]
    ensures Members(groups + [g]) + ws[n..] == Members(groups) + ws
    ensures Taken(groups + [g]) == Taken(groups) + |g.updates|
  {
    hide GroupOk;
    var groups1 := groups + [g];
    assert groups1[..|groups|] == groups;
    forall i | 0 <= i < |groups1| ensures GroupOk(groups1[i]) && groups1[i].first == Taken(groups1[..i]) + 1 {
      if i < |groups| {
        assert groups1[..i] == groups[..i];
      }
    }
    assert ws == ws[..n] + ws[n..];
  }

  lemma AppliedGrows(groups: seq<Group>, g: Group)
    ensures Applied(groups + [g]) == Applied(groups) + if g.ok then Numbered(g.first, g.updates) else []
  {
    assert (groups + [g])[..|groups|] == groups;
  }

  lemma {:induction false} NumberedAt(first: nat, us: seq<Update>, i: nat)
    requires i < |us|
    ensures |Numbered(first, us)| == |us| && Numbered(first, us)[i] == (first + i, us[i])
    decreases |us|
  {
    var shorter := us[..|us| - 1];
    if i < |shorter| {
      NumberedAt(first, shorter, i);
    } else if shorter != [] {
      NumberedAt(first, shorter, 0);
    }
  }

  /** Sequence numbers are given out in queue order, each at most once: those in the memtable strictly
      increase and none is beyond the last one. */
  lemma {:induction false} NumbersIncrease(groups: seq<Group>)
    requires GroupsOk(groups)
    ensures forall i :: 0 <= i < |Applied(groups)| ==> 1 <= Applied(groups)[i].0 <= Taken(groups)
    ensures forall i, j :: 0 <= i < j < |Applied(groups)| ==> Applied(groups)[i].0 < Applied(groups)[j].0
  {
    hide GroupOk, Numbered;
    if groups != [] {
      var shorter, g := groups[..|groups| - 1], groups[|groups| - 1];
      assert forall i :: 0 <= i < |shorter| ==> shorter[i] == groups[i] && shorter[..i] == groups[..i];
      NumbersIncrease(shorter);
      var ns := Numbered(g.first, g.updates);
      NumberedLength(g.first, g.updates);
      forall i | 0 <= i < |ns| ensures ns[i].0 == Taken(shorter) + 1 + i {
        NumberedAt(g.first, g.updates, i);
      }
    }
  }

  lemma NumberedLength(first: nat, us: seq<Update>)
    ensures |Numbered(first, us)| == |us|
  {
    if us != [] {
      NumberedAt(first, us, 0);
    }
  }

  lemma {:induction false} JoinedAt(ws: seq<Writer>, j: nat, i: nat)
    requires j < |ws| && i < |UpdatesOf(ws[j])|
    ensures |Joined(ws[..j])| + i < |Joined(ws)| && Joined(ws)[|Joined(ws[..j])| + i] == UpdatesOf(ws[j])[i]
    decreases |ws|
  {
    var shorter := ws[..|ws| - 1];
    if j < |shorter| {
      JoinedAt(shorter, j, i);
      assert shorter[..j] == ws[..j];
    }
  }

  lemma {:induction false} AppliedAt(groups: seq<Group>, k: nat, i: nat)
    requires k < |groups| && groups[k].ok && i < |groups[k].updates|
    ensures (groups[k].first + i, groups[k].updates[i]) in Applied(groups)
    decreases |groups|
  {
    hide Numbered;
    var shorter := groups[..|groups| - 1];
    if k < |shorter| {
      AppliedAt(shorter, k, i);
    } else {
      NumberedAt(groups[k].first, groups[k].updates, i);
    }
  }

  /** The place of a writer among the members of the groups. */
  lemma {:induction false} MemberPlace(groups: seq<Group>, w: Writer) returns (k: nat, j: nat)
    requires w in Members(groups)
    ensures k < |groups| && j < |groups[k].members| && groups[k].members[j] == w
  {
    var n := |groups| - 1;
    if w in groups[n].members {
      k := n;
      j :| 0 <= j < |groups[n].members| && groups[n].members[j] == w;
    } else {
      k, j := MemberPlace(groups[..n], w);
    }
  }

  /** A writer told of success finds each of its updates in the memtable, under consecutive numbers that
      follow those of the writers before it in its group. */
  lemma SuccessMeansApplied(done: map<nat, bool>, groups: seq<Group>, w: Writer, i: nat) returns (k: nat, j: nat)
    requires GroupsOk(groups) && OutcomesAre(done, groups) && w in Members(groups)
    requires w.id in done && done[w.id] && i < |UpdatesOf(w)|
    ensures k < |groups| && j < |groups[k].members| && groups[k].members[j] == w
    ensures (groups[k].first + |Joined(groups[k].members[..j])| + i, UpdatesOf(w)[i]) in Applied(groups)
  {
    hide Applied, Joined, GroupRule, Taken, Members;
    k, j := MemberPlace(groups, w);
    assert GroupOk(groups[k]) && groups[k].ok;
    JoinedAt(groups[k].members, j, i);
    AppliedAt(groups, k, |Joined(groups[k].members[..j])| + i);
  }
}
