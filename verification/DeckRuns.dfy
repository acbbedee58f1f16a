/** What the six-slot registry keeps over whole runs: who holds which slot, what a press may still reach,
    which snapshots count, and what the display may say. */
module DeckRuns {
  import opened DeckModel

  datatype Event =
    | Register(registration: Registration, verdict: Verdict, now: real)
    | Update(id: Id, snapshot: Snapshot, now: real, seen: real)
    | Delete(id: Id)
    | SweepAll(verdicts: seq<Verdict>)

  /** One call on the registry; a call that raises leaves the state alone.  A sweep probes each record it
      started with once, so it comes with one verdict a record. */
  function Step(s: State, e: Event): State
    requires |s.slots| == |s.generations|
    ensures |Step(s, e).slots| == |Step(s, e).generations| == |s.slots|
  {
    match e
    case Register(r, verdict, now) =>
      var out := Upsert(s, r, verdict, now);
      if out.Ok? then out.value else s
    case Update(id, d, now, seen) =>
      var out := Accept(s, id, d, now, seen);
      if out.Ok? then out.value.0 else s
    case Delete(id) => Remove(s, id)
    case SweepAll(verdicts) => if |verdicts| == |s.records| then Sweep(s, verdicts) else s
  }

  function At(events: seq<Event>): (s: State)
    ensures |s.slots| == |s.generations| == SLOTS
  {
    if |events| == 0 then Init() else Step(At(events[..|events| - 1]), events[|events| - 1])
  }

  lemma {:induction false} StepKeepsInv(s: State, e: Event)
    requires Inv(s)
    ensures Inv(Step(s, e))
  {
    match e
    case Register(r, verdict, now) => UpsertKeepsInv(s, r, verdict, now);
    case Update(id, d, now, seen) => AcceptKeepsInv(s, id, d, now, seen);
    case Delete(id) => RemoveKeepsInv(s, id);
    case SweepAll(verdicts) =>
      if |verdicts| == |s.records| {
        RemoveAllKeepsInv(s, DeadIds(s.records, verdicts));
      }
  }

  lemma {:induction false} RunKeepsInv(events: seq<Event>)
    ensures Inv(At(events))
    decreases |events|
  {
    if |events| == 0 {
      InitInv();
    } else {
      RunKeepsInv(events[..|events| - 1]);
      StepKeepsInv(At(events[..|events| - 1]), events[|events| - 1]);
    }
  }

  // ---------------------------------------------------------------- who holds a slot

  /** In every reachable state the holders are exactly the first six live records in registration order, the
      slot map and the records are inverse to each other, and a generation is odd exactly when its slot is
      taken. */
  lemma {:induction false} SlotOwnership(events: seq<Event>)
    ensures var s := At(events);
      && DistinctIds(s.records)
      && (forall i :: 0 <= i < |s.records| ==> (s.records[i].slot.Some? <==> i < SLOTS))
      && (forall i, k :: 0 <= i < |s.records| && 0 <= k < SLOTS
            ==> (s.slots[k] == Some(s.records[i].id) <==> s.records[i].slot == Some(k)))
      && (forall k :: 0 <= k < SLOTS && s.slots[k].Some? ==> Has(s, s.slots[k].value))
      && (forall k :: 0 <= k < SLOTS ==> (s.slots[k].Some? <==> s.generations[k] % 2 == 1))
  {
    RunKeepsInv(events);
    var s := At(events);
    forall i | 0 <= i < |s.records| ensures s.records[i].slot.Some? <==> i < SLOTS {
      assert HoldsItsSlot(s, i);
    }
    forall i, k | 0 <= i < |s.records| && 0 <= k < SLOTS
      ensures s.slots[k] == Some(s.records[i].id) <==> s.records[i].slot == Some(k)
    {
      assert HoldsItsSlot(s, i);
      if s.slots[k] == Some(s.records[i].id) {
        assert HolderOf(s, k);
        var j :| 0 <= j < |s.records| && s.records[j].id == s.slots[k].value && s.records[j].slot == Some(k);
        assert i == j;
      }
    }
    forall k | 0 <= k < SLOTS && s.slots[k].Some? ensures Has(s, s.slots[k].value) {
      assert HolderOf(s, k);
    }
  }

  /** One registration seen in two states: same identity, and a slot once held is still held. */
  ghost predicate Continues(s: State, t: State, id: Id) {
    Has(s, id) && Has(t, id) && SameRegistration(Get(s, id), Get(t, id))
  }

  ghost predicate SameRegistration(r: Record, q: Record) {
    && r.id == q.id && r.process == q.process && r.title == q.title && r.windowToken == q.windowToken
    && (r.slot.Some? ==> q.slot == r.slot)
  }

  lemma {:induction false} GetAt(s: State, i: nat)
    requires i < |s.records| && DistinctIds(s.records)
    ensures Has(s, s.records[i].id) && Get(s, s.records[i].id) == s.records[i]
  {
    FindAt(s.records, i);
  }

  /** Removing `id` takes that record out and leaves every other as it was, except that one without a slot
      may gain one. */
  lemma {:induction false} RemoveOthers(s: State, id: Id, other: Id)
    requires Inv(s)
    ensures Has(Remove(s, id), other) <==> Has(s, other) && other != id
    ensures Has(s, other) && other != id ==>
      && Continues(s, Remove(s, id), other)
      && Get(Remove(s, id), other) == Get(s, other).(slot := Get(Remove(s, id), other).slot)
  {
    var t, at := Remove(s, id), Find(s.records, id);
    if at.Some? {
      RemoveKeepsInv(s, id);
      RecordsMove(s, at.value);
      assert DistinctIds(s.records) && DistinctIds(t.records);
      hide Remove, Inv;
      if Has(t, other) {
        var j := Find(t.records, other).value;
        assert Moved(s, t, at.value, j);
        assert Has(s, other) && other != id;
      }
      if Has(s, other) && other != id {
        var i := Find(s.records, other).value;
        var j := if i < at.value then i else i - 1;
        assert Moved(s, t, at.value, j);
        GetAt(t, j);
      }
    }
  }

  /** The record at `i` after a removal at `at` is the one that stood there or one place further, up to its slot. */
  ghost predicate Moved(s: State, t: State, at: nat, i: nat)
    requires i < |t.records|
  {
    var j := if i < at then i else i + 1;
    && j < |s.records|
    && t.records[i] == s.records[j].(slot := t.records[i].slot)
    && (s.records[j].slot.Some? ==> t.records[i].slot == s.records[j].slot)
  }

  lemma {:induction false} RecordsMove(s: State, at: nat)
    requires Inv(s) && at < |s.records|
    ensures var t := Remove(s, s.records[at].id);
      && |t.records| == |s.records| - 1
      && forall i :: 0 <= i < |t.records| ==> Moved(s, t, at, i)
  {
    RemovedRecords(s, at);
    var t := Remove(s, s.records[at].id);
    assert FirstSixHold(s);
    hide Inv, Remove, Moved, HoldsItsSlot;
    forall i | 0 <= i < |t.records| ensures Moved(s, t, at, i) {
      RecordMoves(s, t, at, i);
    }
  }

  lemma {:induction false} RecordMoves(s: State, t: State, at: nat, i: nat)
    requires at < |s.records| && i < |t.records| && |t.records| == |s.records| - 1
    requires HoldsItsSlot(s, at) && HoldsItsSlot(s, if i < at then i else i + 1)
    requires t.records ==
      if at < SLOTS then AfterHolder(s.records, at, s.records[at].slot.value) else Cut(s.records, at)
    ensures Moved(s, t, at, i)
  {
    var j := if i < at then i else i + 1;
    assert Cut(s.records, at)[i] == s.records[j];
    hide Cut;
    assert t.records[i] == s.records[j].(slot := t.records[i].slot);
  }

  lemma {:induction false} RemoveAllOthers(s: State, ids: seq<Id>, other: Id)
    requires Inv(s)
    ensures Has(RemoveAll(s, ids), other) <==> Has(s, other) && other !in ids
    ensures Has(s, other) && other !in ids ==>
      && Continues(s, RemoveAll(s, ids), other)
      && Get(RemoveAll(s, ids), other) == Get(s, other).(slot := Get(RemoveAll(s, ids), other).slot)
    decreases |ids|
  {
    if |ids| > 0 {
      var front, id := ids[..|ids| - 1], ids[|ids| - 1];
      assert ids == front + [id];
      RemoveAllOthers(s, front, other);
      RemoveAllKeepsInv(s, front);
      RemoveOthers(RemoveAll(s, front), id, other);
    }
  }

  lemma {:induction false} RewriteOthers(s: State, at: nat, r: Record, other: Id)
    requires Inv(s) && at < |s.records| && SameRegistration(s.records[at], r) && r.slot == s.records[at].slot
    ensures Has(s, other) <==> Has(s.(records := s.records[at := r]), other)
    ensures Has(s, other) ==> Continues(s, s.(records := s.records[at := r]), other)
    ensures Has(s, other) && other != r.id ==> Get(s.(records := s.records[at := r]), other) == Get(s, other)
    ensures Has(s.(records := s.records[at := r]), r.id) && Get(s.(records := s.records[at := r]), r.id) == r
  {
    var t := s.(records := s.records[at := r]);
    RewriteKeepsInv(s, at, r);
    GetAt(s, at);
    GetAt(t, at);
    if Has(s, other) {
      GetAt(t, Find(s.records, other).value);
    } else if Has(t, other) {
      GetAt(s, Find(t.records, other).value);
    }
  }

  /** No call moves or evicts a holder: a record that is there before and after is the same registration and
      has kept its slot. */
  lemma {:induction false} NobodyIsMoved(s: State, e: Event, id: Id)
    requires Inv(s) && Has(s, id) && Has(Step(s, e), id)
    ensures Continues(s, Step(s, e), id)
  {
    match e
    case Register(r, verdict, now) =>
      var at := Find(s.records, r.id);
      if Upsert(s, r, verdict, now).Ok? {
        if at.Some? {
          RewriteOthers(s, at.value, s.records[at.value].(lastSeen := now), id);
        } else {
          UpsertKeepsInv(s, r, verdict, now);
          GetAt(Step(s, e), Find(s.records, id).value);
        }
      }
    case Update(key, d, now, seen) =>
      if BadSnapshot(d).None? && Has(s, key) {
        var at := Find(s.records, key).value;
        if !StaleSnapshot(s.records[at], d) {
          RewriteOthers(s, at, Refreshed(s.records[at], d, now).(lastSeen := seen), id);
        }
      }
    case Delete(key) => RemoveOthers(s, key, id);
    case SweepAll(verdicts) =>
      if |verdicts| == |s.records| {
        RemoveAllOthers(s, DeadIds(s.records, verdicts), id);
      }
  }

  // ---------------------------------------------------------------- sweep

  function IdsOf(records: seq<Record>): (ids: seq<Id>)
    ensures |ids| == |records| && forall i :: 0 <= i < |ids| ==> ids[i] == records[i].id
  {
    seq(|records|, i requires 0 <= i < |records| => records[i].id)
  }

  /** `ids` without those in `gone`, in order. */
  function Keep(ids: seq<Id>, gone: seq<Id>): seq<Id> {
    if |ids| == 0 then []
    else Keep(ids[..|ids| - 1], gone) + if ids[|ids| - 1] in gone then [] else [ids[|ids| - 1]]
  }

  /** The ids of the records whose process was not found dead, in order. */
  function LivingIds(records: seq<Record>, verdicts: seq<Verdict>): seq<Id>
    requires |verdicts| == |records|
  {
    if |records| == 0 then []
    else
      var n := |records| - 1;
      LivingIds(records[..n], verdicts[..n]) + if verdicts[n] == Dead then [] else [records[n].id]
  }

  lemma {:induction false} KeepNone(ids: seq<Id>)
    ensures Keep(ids, []) == ids
    decreases |ids|
  {
    if |ids| > 0 {
      KeepNone(ids[..|ids| - 1]);
      assert ids == ids[..|ids| - 1] + [ids[|ids| - 1]];
    }
  }

  lemma {:induction false} KeepAbsent(ids: seq<Id>, id: Id)
    requires id !in ids
    ensures Keep(ids, [id]) == ids
    decreases |ids|
  {
    if |ids| > 0 {
      KeepAbsent(ids[..|ids| - 1], id);
      assert ids == ids[..|ids| - 1] + [ids[|ids| - 1]];
    }
  }

  lemma {:induction false} KeepConcat(left: seq<Id>, right: seq<Id>, gone: seq<Id>)
    ensures Keep(left + right, gone) == Keep(left, gone) + Keep(right, gone)
    decreases |right|
  {
    if |right| == 0 {
      assert left + right == left;
    } else {
      var n := |right| - 1;
      KeepConcat(left, right[..n], gone);
      assert (left + right)[..|left + right| - 1] == left + right[..n];
    }
  }

  lemma {:induction false} KeepTwice(ids: seq<Id>, gone: seq<Id>, id: Id)
    ensures Keep(Keep(ids, gone), [id]) == Keep(ids, gone + [id])
    decreases |ids|
  {
    if |ids| > 0 {
      var front, last := ids[..|ids| - 1], ids[|ids| - 1];
      KeepTwice(front, gone, id);
      var tail := if last in gone then [] else [last];
      KeepConcat(Keep(front, gone), tail, [id]);
      if last !in gone {
        assert tail[..0] == [];
        assert Keep(tail, [id]) == if last == id then [] else [last];
      }
    }
  }

  lemma {:induction false} RemoveDropsOneId(s: State, id: Id)
    requires Inv(s)
    ensures IdsOf(Remove(s, id).records) == Keep(IdsOf(s.records), [id])
  {
    hide IdsOf, Keep, DistinctIds;
    var at := Find(s.records, id);
    if at.None? {
      assert id !in IdsOf(s.records);
      KeepAbsent(IdsOf(s.records), id);
    } else {
      RemovedRecords(s, at.value);
      DropAt(s.records, at.value);
      if at.value < SLOTS {
        AfterHolderIds(s.records, at.value, s.records[at.value].slot.value);
      }
    }
  }

  lemma {:induction false} DropAt(records: seq<Record>, at: nat)
    requires at < |records| && DistinctIds(records)
    ensures IdsOf(Cut(records, at)) == Keep(IdsOf(records), [records[at].id])
  {
    KeepOthers(IdsOf(records), at);
    assert IdsOf(Cut(records, at)) == IdsOf(records)[..at] + IdsOf(records)[at + 1..];
  }

  lemma {:induction false} AfterHolderIds(records: seq<Record>, at: nat, k: nat)
    requires at < |records|
    ensures IdsOf(AfterHolder(records, at, k)) == IdsOf(Cut(records, at))
  {
  }

  lemma {:induction false} KeepOthers(ids: seq<Id>, at: nat)
    requires at < |ids| && forall i, j :: 0 <= i < j < |ids| ==> ids[i] != ids[j]
    ensures Keep(ids, [ids[at]]) == ids[..at] + ids[at + 1..]
    decreases |ids|
  {
    var n := |ids| - 1;
    var front, last := ids[..n], ids[n];
    if at == n {
      KeepAbsent(front, ids[at]);
    } else {
      KeepOthers(front, at);
      assert front[..at] == ids[..at] && front[at + 1..] + [last] == ids[at + 1..];
    }
  }

  lemma {:induction false} RemoveAllDropsIds(s: State, ids: seq<Id>)
    requires Inv(s)
    ensures IdsOf(RemoveAll(s, ids).records) == Keep(IdsOf(s.records), ids)
    decreases |ids|
  {
    if |ids| == 0 {
      KeepNone(IdsOf(s.records));
    } else {
      var front, id := ids[..|ids| - 1], ids[|ids| - 1];
      assert ids == front + [id];
      RemoveAllDropsIds(s, front);
      RemoveAllKeepsInv(s, front);
      RemoveDropsOneId(RemoveAll(s, front), id);
      KeepTwice(IdsOf(s.records), front, id);
    }
  }

  lemma {:induction false} LivingAreKept(records: seq<Record>, verdicts: seq<Verdict>, n: nat)
    requires DistinctIds(records) && |verdicts| == |records| && n <= |records|
    ensures Keep(IdsOf(records)[..n], DeadIds(records, verdicts)) == LivingIds(records[..n], verdicts[..n])
    decreases n
  {
    if n > 0 {
      LivingAreKept(records, verdicts, n - 1);
      var ids := IdsOf(records);
      assert ids[..n][..n - 1] == ids[..n - 1];
      assert records[..n][..n - 1] == records[..n - 1] && verdicts[..n][..n - 1] == verdicts[..n - 1];
      assert ids[n - 1] in DeadIds(records, verdicts) <==> verdicts[n - 1] == Dead;
    }
  }

  /** The record at `i` is still there, the same registration, changed at most by gaining a slot. */
  ghost predicate Survives(s: State, t: State, i: nat)
    requires i < |s.records|
  {
    var id := s.records[i].id;
    && Continues(s, t, id)
    && Get(t, id) == s.records[i].(slot := Get(t, id).slot)
  }

  lemma {:induction false} LivingSurvive(s: State, verdicts: seq<Verdict>, i: nat)
    requires Inv(s) && |verdicts| == |s.records| && i < |s.records| && verdicts[i] != Dead
    ensures Survives(s, RemoveAll(s, DeadIds(s.records, verdicts)), i)
  {
    hide RemoveAll, DeadIds, SlotsHaveHolders, FirstSixHold, Parity, Count;
    GetAt(s, i);
    assert s.records[i].id !in DeadIds(s.records, verdicts);
    RemoveAllOthers(s, DeadIds(s.records, verdicts), s.records[i].id);
  }

  /** A sweep leaves exactly the records whose process was not found dead, in order and otherwise as they
      were; holders that survive keep their slots, and the first six survivors hold the slots, even though a
      dead record may gain a slot on the way and lose it again. */
  lemma {:induction false} SweepIsExact(s: State, verdicts: seq<Verdict>)
    requires Inv(s) && |verdicts| == |s.records|
    ensures var t := Sweep(s, verdicts);
      && Inv(t)
      && IdsOf(t.records) == LivingIds(s.records, verdicts)
      && forall i :: 0 <= i < |s.records| && verdicts[i] != Dead ==> Survives(s, t, i)
  {
    var dead := DeadIds(s.records, verdicts);
    RemoveAllKeepsInv(s, dead);
    RemoveAllDropsIds(s, dead);
    LivingAreKept(s.records, verdicts, |s.records|);
    hide Inv, RemoveAll, DeadIds, LivingIds, Keep, Survives;
    assert IdsOf(s.records)[..|s.records|] == IdsOf(s.records);
    assert s.records[..|s.records|] == s.records && verdicts[..|s.records|] == verdicts;
    forall i | 0 <= i < |s.records| && verdicts[i] != Dead ensures Survives(s, RemoveAll(s, dead), i) {
      LivingSurvive(s, verdicts, i);
    }
  }

  // ---------------------------------------------------------------- stale presses

  /** Slot `k` from `s` to `t`: its generation never falls, and if it is the same then so is the holder. */
  ghost predicate Fenced(s: State, t: State, k: nat)
    requires |s.slots| == |s.generations| == |t.slots| == |t.generations| == SLOTS && k < SLOTS
  {
    && s.generations[k] <= t.generations[k]
    && (s.generations[k] == t.generations[k] ==>
          t.slots[k] == s.slots[k] && (s.slots[k].Some? ==> Continues(s, t, s.slots[k].value)))
  }

  lemma {:induction false} FencedTransitive(s: State, t: State, u: State, k: nat)
    requires Inv(s) && Inv(t) && Inv(u) && k < SLOTS && Fenced(s, t, k) && Fenced(t, u, k)
    ensures Fenced(s, u, k)
  {
    hide Inv, Has;
  }

  lemma {:induction false} HolderIsThere(s: State, k: nat)
    requires Inv(s) && k < SLOTS && s.slots[k].Some?
    ensures Has(s, s.slots[k].value) && Get(s, s.slots[k].value).slot == Some(k)
  {
    assert HolderOf(s, k);
    var i :| 0 <= i < |s.records| && s.records[i].id == s.slots[k].value && s.records[i].slot == Some(k);
    GetAt(s, i);
  }

  lemma {:induction false} RemoveFences(s: State, id: Id, k: nat)
    requires Inv(s) && k < SLOTS
    ensures Inv(Remove(s, id)) && Fenced(s, Remove(s, id), k)
  {
    RemoveKeepsInv(s, id);
    var t, at := Remove(s, id), Find(s.records, id);
    if at.Some? {
      assert HoldsItsSlot(s, at.value);
      if s.slots[k].Some? && s.generations[k] == t.generations[k] {
        HolderIsThere(s, k);
        GetAt(s, at.value);
        RemoveOthers(s, id, s.slots[k].value);
      }
    } else if s.slots[k].Some? {
      HolderIsThere(s, k);
    }
  }

  lemma {:induction false} RemoveAllFences(s: State, ids: seq<Id>, k: nat)
    requires Inv(s) && k < SLOTS
    ensures Inv(RemoveAll(s, ids)) && Fenced(s, RemoveAll(s, ids), k)
    decreases |ids|
  {
    if |ids| == 0 {
      if s.slots[k].Some? {
        HolderIsThere(s, k);
      }
    } else {
      var before := RemoveAll(s, ids[..|ids| - 1]);
      RemoveAllFences(s, ids[..|ids| - 1], k);
      RemoveFences(before, ids[|ids| - 1], k);
      FencedTransitive(s, before, RemoveAll(s, ids), k);
    }
  }

  lemma {:induction false} StepFences(s: State, e: Event, k: nat)
    requires Inv(s) && k < SLOTS
    ensures Inv(Step(s, e)) && Fenced(s, Step(s, e), k)
  {
    StepKeepsInv(s, e);
    match e
    case Delete(id) => RemoveFences(s, id, k);
    case SweepAll(verdicts) =>
      RemoveAllFences(s, if |verdicts| == |s.records| then DeadIds(s.records, verdicts) else [], k);
    case _ =>
      if s.slots[k].Some? {
        HolderIsThere(s, k);
        StillThere(s, e, s.slots[k].value);
        NobodyIsMoved(s, e, s.slots[k].value);
      }
  }

  lemma {:induction false} StillThere(s: State, e: Event, id: Id)
    requires Inv(s) && Has(s, id) && (e.Register? || e.Update?)
    ensures Has(Step(s, e), id)
  {
    var i, t := Find(s.records, id).value, Step(s, e);
    assert i < |t.records| && t.records[i].id == id;
  }

  lemma {:induction false} RunFences(events: seq<Event>, i: nat, k: nat)
    requires i <= |events| && k < SLOTS
    ensures Fenced(At(events[..i]), At(events), k)
    decreases |events|
  {
    RunKeepsInv(events[..i]);
    if i == |events| {
      assert events[..i] == events;
      if At(events).slots[k].Some? {
        HolderIsThere(At(events), k);
      }
    } else {
      var before := events[..|events| - 1];
      assert before[..i] == events[..i];
      RunFences(before, i, k);
      RunKeepsInv(before);
      RunKeepsInv(events);
      StepFences(At(before), events[|events| - 1], k);
      FencedTransitive(At(events[..i]), At(before), At(events), k);
    }
  }

  /** How many events had happened when the registration now known as `id` came in. */
  function Born(events: seq<Event>, id: Id): nat {
    if |events| > 0 && Has(At(events[..|events| - 1]), id) then Born(events[..|events| - 1], id)
    else |events|
  }

  /** Equal generations in two states of a run mean nothing happened to the slot in between: whatever view
      (slot, generation, id) was taken in the first state, in every state up to the second the slot has the
      same generation and the same holder, one and the same registration throughout. */
  lemma {:induction false} EqualGenerationsMeanSameHolder(events: seq<Event>, i: nat, m: nat, j: nat, k: nat)
    requires i <= m <= j <= |events| && k < SLOTS
    requires At(events[..i]).generations[k] == At(events[..j]).generations[k]
    ensures At(events[..m]).generations[k] == At(events[..i]).generations[k]
    ensures At(events[..m]).slots[k] == At(events[..i]).slots[k]
    ensures var holder := At(events[..i]).slots[k];
      holder.Some? ==>
        && Continues(At(events[..i]), At(events[..m]), holder.value)
        && Get(At(events[..m]), holder.value).slot == Some(k)
        && Born(events[..m], holder.value) == Born(events[..i], holder.value)
    decreases m
  {
    hide At, Inv, Born, Find;
    assert events[..j][..m] == events[..m] && events[..m][..i] == events[..i];
    RunFences(events[..m], i, k);
    RunFences(events[..j], m, k);
    RunKeepsInv(events[..i]);
    var holder := At(events[..i]).slots[k];
    if holder.Some? {
      HolderIsThere(At(events[..i]), k);
      if m > i {
        EqualGenerationsMeanSameHolder(events, i, m - 1, j, k);
        BornStays(events, m, holder.value);
      }
    }
  }

  lemma {:induction false} BornStays(events: seq<Event>, m: nat, id: Id)
    requires 0 < m <= |events| && Has(At(events[..m - 1]), id)
    ensures Born(events[..m], id) == Born(events[..m - 1], id)
  {
    assert events[..m][..m - 1] == events[..m - 1];
  }

  /** A press resolves only to the registration it was aimed at: when a view of a taken slot, captured in one
      state, resolves in a later one, that very registration held that slot in every state between, and the
      record the press gets is of its process and window. */
  lemma {:induction false} StalePressNeverResolves(events: seq<Event>, i: nat, v: View, r: Record, verdict: Verdict)
    requires i <= |events| && v.slot < SLOTS && v.id.Some?
    requires At(events[..i]).slots[v.slot] == v.id && At(events[..i]).generations[v.slot] == v.generation
    requires Resolve(At(events), Some(v.slot), Some(v.generation), v.id, verdict) == Some(r)
    ensures Has(At(events[..i]), v.id.value) && SameRegistration(Get(At(events[..i]), v.id.value), r)
    ensures forall m :: i <= m <= |events| ==> HeldSince(events, i, m, v)
  {
    assert events[..|events|] == events;
    forall m | i <= m <= |events| ensures HeldSince(events, i, m, v) {
      EqualGenerationsMeanSameHolder(events, i, m, |events|, v.slot);
    }
    EqualGenerationsMeanSameHolder(events, i, |events|, |events|, v.slot);
  }

  /** After `m` events the slot of the view is held by the registration that held it after `i`. */
  ghost predicate HeldSince(events: seq<Event>, i: nat, m: nat, v: View)
    requires i <= m <= |events| && v.slot < SLOTS && v.id.Some?
  {
    var s := At(events[..m]);
    && s.slots[v.slot] == v.id
    && Has(s, v.id.value)
    && Get(s, v.id.value).slot == Some(v.slot)
    && Born(events[..m], v.id.value) == Born(events[..i], v.id.value)
  }
}
