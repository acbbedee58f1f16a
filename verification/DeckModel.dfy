/** The six-slot registry of `opencode-deck/opencode-deck/ocdeck/model.py`, as values.

    A state is what the registry's lock protects.  The functions below say what each call is meant to leave
    behind; the class in `DeckRegistry.dfy` does it the way the source does and is proved against them. */
module DeckModel {

  const SLOTS: nat := 6

  type Id = string

  datatype Option<+T> = None | Some(value: T)

  datatype Result<+T> = Ok(value: T) | Err(error: Error)

  datatype Error = BadId | NotLive | IdentityChanged | BadStatus | BadSequence | BadPending | NotRegistered

  /** What a process is known by. */
  datatype Process = Process(pid: int, started: int)

  /** The three answers of the process probe: alive, definitively dead, cannot tell. */
  datatype Verdict = Alive | Dead | CannotTell

  datatype Status = Idle | Busy | Retry | Unknown

  datatype Record = Record(
    id: Id,
    process: Process,
    slot: Option<nat>,
    title: string,
    windowToken: string,
    seqNo: int,
    producer: Option<string>,
    retired: seq<string>,
    status: Status,
    pending: nat,
    lastState: real,
    lastSeen: real,
    detail: string)

  /** `records` is in registration order, as Python's dict keeps it. */
  datatype State = State(records: seq<Record>, slots: seq<Option<Id>>, generations: seq<nat>)

  /** A registration: `process` is `None` when the field is missing or not an object. */
  datatype Registration = Registration(id: Id, process: Option<Process>, title: string, windowToken: string)

  /** A snapshot as it comes in: `None` stands for a field of the wrong type. */
  datatype Snapshot = Snapshot(
    status: Option<Status>, seqNo: Option<int>, producer: Option<string>, pending: Option<int>, detail: string)

  function Init(): State {
    State([], seq(SLOTS, _ => None), seq(SLOTS, _ => 0))
  }

  function Clip(text: string, n: nat): string {
    if |text| <= n then text else text[..n]
  }

  function Find(records: seq<Record>, id: Id): (at: Option<nat>)
    ensures at.Some? ==> at.value < |records| && records[at.value].id == id
    ensures at.None? ==> forall i :: 0 <= i < |records| ==> records[i].id != id
  {
    if |records| == 0 then None
    else if records[|records| - 1].id == id then Some(|records| - 1)
    else Find(records[..|records| - 1], id)
  }

  predicate Has(s: State, id: Id) {
    Find(s.records, id).Some?
  }

  function Get(s: State, id: Id): Record
    requires Has(s, id)
  {
    s.records[Find(s.records, id).value]
  }

  function FirstFree(slots: seq<Option<Id>>): (at: Option<nat>)
    ensures at.Some? ==> at.value < |slots| && slots[at.value].None?
    ensures at.Some? ==> forall k :: 0 <= k < at.value ==> slots[k].Some?
    ensures at.None? ==> forall k :: 0 <= k < |slots| ==> slots[k].Some?
  {
    if |slots| == 0 then None
    else
      var front := FirstFree(slots[..|slots| - 1]);
      if front.Some? then front
      else if slots[|slots| - 1].None? then Some(|slots| - 1)
      else None
  }

  // ---------------------------------------------------------------- the calls

  function NewRecord(r: Registration, process: Process, slot: Option<nat>, now: real): Record {
    Record(r.id, process, slot, Clip(r.title, 100), Clip(r.windowToken, 128), -1, None, [], Unknown, 0, 0.0, now,
           "Connecting")
  }

  function Upsert(s: State, r: Registration, verdict: Verdict, now: real): Result<State>
    requires |s.slots| == |s.generations|
  {
    if !(1 <= |r.id| <= 128) then Err(BadId)
    else
      var at := Find(s.records, r.id);
      if at.Some? then
        if r.process != Some(s.records[at.value].process) then Err(IdentityChanged)
        else Ok(s.(records := s.records[at.value := s.records[at.value].(lastSeen := now)]))
      else if r.process.None? || verdict != Alive then Err(NotLive)
      else
        Ok(Append(s, NewRecord(r, r.process.value, FirstFree(s.slots), now)))
  }

  /** A new record joins at the end, and takes its slot if it has one. */
  function Append(s: State, r: Record): State
    requires |s.slots| == |s.generations| && (r.slot.Some? ==> r.slot.value < |s.slots|)
  {
    match r.slot
    case Some(k) => State(s.records + [r], s.slots[k := Some(r.id)], s.generations[k := s.generations[k] + 1])
    case None => s.(records := s.records + [r])
  }

  function BadSnapshot(d: Snapshot): Option<Error> {
    if d.status.None? then Some(BadStatus)
    else if d.seqNo.None? || d.seqNo.value < 0 || d.producer.None? || !(1 <= |d.producer.value| <= 128) then
      Some(BadSequence)
    else if d.pending.None? || !(0 <= d.pending.value <= 10000) then Some(BadPending)
    else None
  }

  /** A snapshot is stale when its producer was replaced, or is the current one and has been as far. */
  predicate StaleSnapshot(r: Record, d: Snapshot)
    requires BadSnapshot(d).None?
  {
    d.producer.value in r.retired || (r.producer == d.producer && d.seqNo.value <= r.seqNo)
  }

  function Refreshed(r: Record, d: Snapshot, now: real): Record
    requires BadSnapshot(d).None?
  {
    var retired := if r.producer == d.producer || r.producer.None? then r.retired else r.retired + [r.producer.value];
    r.(seqNo := d.seqNo.value, producer := d.producer, retired := retired, status := d.status.value,
       pending := d.pending.value, detail := Clip(d.detail, 200), lastState := now)
  }

  function Accept(s: State, id: Id, d: Snapshot, now: real, seen: real): Result<(State, bool)> {
    if BadSnapshot(d).Some? then Err(BadSnapshot(d).value)
    else if !Has(s, id) then Err(NotRegistered)
    else
      var at := Find(s.records, id).value;
      if StaleSnapshot(s.records[at], d) then Ok((s, false))
      else Ok((s.(records := s.records[at := Refreshed(s.records[at], d, now).(lastSeen := seen)]), true))
  }

  /** Removing a holder frees its slot, and the first record without one takes it over. */
  function Remove(s: State, id: Id): State
    requires |s.slots| == |s.generations|
  {
    var at := Find(s.records, id);
    if at.None? then s
    else
      var rest := s.records[..at.value] + s.records[at.value + 1..];
      var slot := s.records[at.value].slot;
      if slot.None? || slot.value >= |s.slots| then s.(records := rest)
      else
        var k := slot.value;
        if |rest| < SLOTS then State(rest, s.slots[k := None], s.generations[k := s.generations[k] + 1])
        else
          var next := rest[SLOTS - 1];
          State(rest[SLOTS - 1 := next.(slot := Some(k))], s.slots[k := Some(next.id)],
                s.generations[k := s.generations[k] + 2])
  }

  function RemoveAll(s: State, ids: seq<Id>): (t: State)
    requires |s.slots| == |s.generations|
    ensures |t.slots| == |t.generations| == |s.slots|
  {
    if |ids| == 0 then s else Remove(RemoveAll(s, ids[..|ids| - 1]), ids[|ids| - 1])
  }

  /** The ids of the first `|verdicts|` records whose process was found dead, in order. */
  function DeadIds(records: seq<Record>, verdicts: seq<Verdict>): (ids: seq<Id>)
    requires |verdicts| <= |records|
    ensures forall id :: id in ids <==> exists i :: 0 <= i < |verdicts| && records[i].id == id && verdicts[i] == Dead
  {
    if |verdicts| == 0 then []
    else
      var n := |verdicts| - 1;
      var front := DeadIds(records, verdicts[..n]);
      if verdicts[n] == Dead then front + [records[n].id] else front
  }

  /** `verdicts[i]` is what the probe says of the i-th record when the sweep gets to it. */
  function Sweep(s: State, verdicts: seq<Verdict>): State
    requires |s.slots| == |s.generations| && |verdicts| == |s.records|
  {
    RemoveAll(s, DeadIds(s.records, verdicts))
  }

  datatype Appearance = Off | Ready | ShowUnknown | Input | Running | ShowIdle

  function AppearanceOf(r: Record, now: real, staleAfter: real): Appearance {
    if now - r.lastState > staleAfter || r.status == Unknown then ShowUnknown
    else if r.pending != 0 then Input
    else if r.status == Busy || r.status == Retry then Running
    else ShowIdle
  }

  datatype View = View(slot: nat, generation: nat, id: Option<Id>, state: Appearance, title: string, detail: string)

  function ViewOf(s: State, k: nat, now: real, staleAfter: real): View
    requires k < |s.slots| == |s.generations|
  {
    var id := s.slots[k];
    if id.Some? && Has(s, id.value) then
      var r := Get(s, id.value);
      View(k, s.generations[k], id, AppearanceOf(r, now, staleAfter), r.title, r.detail)
    else View(k, s.generations[k], id, Off, "", "")
  }

  /** The record a press is for, if the slot still has the id and the generation of the press. */
  function Resolve(s: State, slot: Option<int>, generation: Option<int>, id: Option<Id>, verdict: Verdict)
    : Option<Record>
    requires |s.slots| == |s.generations| == SLOTS
  {
    if slot.None? || !(0 <= slot.value < SLOTS) then None
    else if s.slots[slot.value] != id || generation != Some(s.generations[slot.value] as int) then None
    else if id.None? || !Has(s, id.value) || verdict != Alive then None
    else Some(Get(s, id.value))
  }

  // ---------------------------------------------------------------- the invariant

  function Count(slots: seq<Option<Id>>): nat {
    if |slots| == 0 then 0 else Count(slots[..|slots| - 1]) + if slots[|slots| - 1].Some? then 1 else 0
  }

  function Min(a: nat, b: nat): nat {
    if a < b then a else b
  }

  ghost predicate DistinctIds(records: seq<Record>) {
    forall i, j :: 0 <= i < j < |records| ==> records[i].id != records[j].id
  }

  /** The holders are the first six records, no more, no fewer, and each holder's slot has its id. */
  ghost predicate FirstSixHold(s: State) {
    forall i :: 0 <= i < |s.records| ==> HoldsItsSlot(s, i)
  }

  ghost predicate HoldsItsSlot(s: State, i: nat)
    requires i < |s.records|
  {
    match s.records[i].slot
    case Some(k) => i < SLOTS && k < |s.slots| && s.slots[k] == Some(s.records[i].id)
    case None => i >= SLOTS
  }

  /** Every id in a slot is that of a record with that slot. */
  ghost predicate SlotsHaveHolders(s: State) {
    forall k :: 0 <= k < |s.slots| && s.slots[k].Some? ==> HolderOf(s, k)
  }

  /** A generation is odd exactly when its slot is taken. */
  ghost predicate Parity(slots: seq<Option<Id>>, generations: seq<nat>) {
    |slots| == |generations|
    && forall k :: 0 <= k < |slots| ==> (slots[k].Some? <==> generations[k] % 2 == 1)
  }

  ghost predicate Inv(s: State) {
    && |s.slots| == |s.generations| == SLOTS
    && DistinctIds(s.records)
    && FirstSixHold(s)
    && SlotsHaveHolders(s)
    && Parity(s.slots, s.generations)
    && Count(s.slots) == Min(SLOTS, |s.records|)
  }

  ghost predicate HolderOf(s: State, k: nat)
    requires k < |s.slots| && s.slots[k].Some?
  {
    exists i :: 0 <= i < |s.records| && s.records[i].id == s.slots[k].value && s.records[i].slot == Some(k)
  }

  lemma {:induction false} CountUpdate(slots: seq<Option<Id>>, k: nat, v: Option<Id>)
    requires k < |slots|
    ensures Count(slots[k := v]) == Count(slots) - (if slots[k].Some? then 1 else 0) + (if v.Some? then 1 else 0)
    decreases |slots|
  {
    var n := |slots| - 1;
    if k == n {
      assert slots[k := v][..n] == slots[..n];
    } else {
      CountUpdate(slots[..n], k, v);
      assert slots[k := v][..n] == slots[..n][k := v];
    }
  }

  lemma {:induction false} CountFull(slots: seq<Option<Id>>)
    ensures Count(slots) <= |slots|
    ensures Count(slots) == |slots| <==> FirstFree(slots).None?
    decreases |slots|
  {
    if |slots| > 0 {
      CountFull(slots[..|slots| - 1]);
    }
  }

  lemma {:induction false} FindAt(records: seq<Record>, i: nat)
    requires i < |records| && DistinctIds(records)
    ensures Find(records, records[i].id) == Some(i)
  {
    var at := Find(records, records[i].id);
    assert at.Some?;
  }

  lemma {:induction false} InitInv()
    ensures Inv(Init())
  {
    var slots: seq<Option<Id>> := seq(SLOTS, _ => None);
    CountNone(slots);
  }

  lemma {:induction false} CountNone(slots: seq<Option<Id>>)
    requires forall k :: 0 <= k < |slots| ==> slots[k].None?
    ensures Count(slots) == 0
    decreases |slots|
  {
    if |slots| > 0 {
      CountNone(slots[..|slots| - 1]);
    }
  }

  /** A slot keeps its holder when that record stays where it is in the order. */
  lemma {:induction false} KeepsHolder(s: State, t: State, k: nat)
    requires k < |s.slots| && k < |t.slots| && s.slots[k].Some? && t.slots[k] == s.slots[k] && HolderOf(s, k)
    requires forall i :: 0 <= i < |s.records| && s.records[i].slot == Some(k) ==>
      i < |t.records| && t.records[i].id == s.records[i].id && t.records[i].slot == Some(k)
    ensures HolderOf(t, k)
  {
    var i :| 0 <= i < |s.records| && s.records[i].id == s.slots[k].value && s.records[i].slot == Some(k);
    assert t.records[i].id == t.slots[k].value;
  }

  /** Nothing the invariant speaks of changes when a record is rewritten in place. */
  lemma {:induction false} RewriteKeepsInv(s: State, at: nat, r: Record)
    requires Inv(s) && at < |s.records| && r.id == s.records[at].id && r.slot == s.records[at].slot
    ensures Inv(s.(records := s.records[at := r]))
  {
    var t := s.(records := s.records[at := r]);
    forall i | 0 <= i < |t.records| ensures HoldsItsSlot(t, i) {
      assert HoldsItsSlot(s, i);
    }
    forall k | 0 <= k < SLOTS && t.slots[k].Some? ensures HolderOf(t, k) {
      KeepsHolder(s, t, k);
    }
  }

  lemma {:induction false} UpsertKeepsInv(s: State, r: Registration, verdict: Verdict, now: real)
    requires Inv(s)
    ensures Upsert(s, r, verdict, now).Ok? ==> Inv(Upsert(s, r, verdict, now).value)
  {
    var at := Find(s.records, r.id);
    if Upsert(s, r, verdict, now).Ok? {
      if at.Some? {
        RewriteKeepsInv(s, at.value, s.records[at.value].(lastSeen := now));
      } else {
        AppendKeepsInv(s, NewRecord(r, r.process.value, FirstFree(s.slots), now));
      }
    }
  }

  lemma {:induction false} AppendKeepsInv(s: State, r: Record)
    requires Inv(s) && !Has(s, r.id) && r.slot == FirstFree(s.slots)
    ensures Inv(Append(s, r))
  {
    hide HolderOf, FirstFree;
    CountFull(s.slots);
    var t, n := Append(s, r), |s.records|;
    AppendKeepsHolders(s, r);
    if r.slot.Some? {
      CountUpdate(s.slots, r.slot.value, Some(r.id));
    }
    hide SlotsHaveHolders;
    forall i | 0 <= i < |t.records| ensures HoldsItsSlot(t, i) {
      if i < n {
        assert HoldsItsSlot(s, i);
        assert t.records[i] == s.records[i];
      }
    }
    assert Parity(t.slots, t.generations) by {
      hide Count, HoldsItsSlot;
    }
  }

  lemma {:induction false} AppendKeepsHolders(s: State, r: Record)
    requires |s.slots| == |s.generations| && SlotsHaveHolders(s) && r.slot == FirstFree(s.slots)
    ensures SlotsHaveHolders(Append(s, r))
  {
    var t, n := Append(s, r), |s.records|;
    forall k | 0 <= k < |t.slots| && t.slots[k].Some? ensures HolderOf(t, k) {
      if r.slot == Some(k) {
        assert t.records[n].id == t.slots[k].value && t.records[n].slot == Some(k);
      } else {
        assert t.slots[k] == s.slots[k];
        KeepsHolder(s, t, k);
      }
    }
  }

  lemma {:induction false} AcceptKeepsInv(s: State, id: Id, d: Snapshot, now: real, seen: real)
    requires Inv(s)
    ensures Accept(s, id, d, now, seen).Ok? ==> Inv(Accept(s, id, d, now, seen).value.0)
  {
    if BadSnapshot(d).None? && Has(s, id) {
      var at := Find(s.records, id).value;
      if !StaleSnapshot(s.records[at], d) {
        RewriteKeepsInv(s, at, Refreshed(s.records[at], d, now).(lastSeen := seen));
      }
    }
  }

  lemma {:induction false} RemoveKeepsInv(s: State, id: Id)
    requires Inv(s)
    ensures Inv(Remove(s, id))
  {
    var at := Find(s.records, id);
    if at.Some? {
      assert HoldsItsSlot(s, at.value);
      if at.value < SLOTS {
        RemoveHolderKeepsInv(s, at.value);
      } else {
        RemoveWaitingKeepsInv(s, at.value);
        hide Inv, HoldsItsSlot;
        assert Remove(s, id) == s.(records := Cut(s.records, at.value));
      }
    }
  }

  function Cut(records: seq<Record>, at: nat): seq<Record>
    requires at < |records|
  {
    records[..at] + records[at + 1..]
  }

  lemma {:induction false} RemoveWaitingKeepsInv(s: State, at: nat)
    requires Inv(s) && SLOTS <= at < |s.records|
    ensures Inv(s.(records := Cut(s.records, at)))
  {
    var t := s.(records := Cut(s.records, at));
    forall i | 0 <= i < |t.records| ensures HoldsItsSlot(t, i) {
      assert HoldsItsSlot(s, if i < at then i else i + 1);
    }
    forall k | 0 <= k < SLOTS && t.slots[k].Some? ensures HolderOf(t, k) {
      forall i | 0 <= i < |s.records| && s.records[i].slot == Some(k) ensures i < SLOTS {
        assert HoldsItsSlot(s, i);
      }
      KeepsHolder(s, t, k);
    }
  }

  /** The records a removed holder leaves: those before it, then those after it, one place up, the first of
      the waiting ones with the freed slot. */
  function AfterHolder(records: seq<Record>, at: nat, k: nat): seq<Record>
    requires at < |records|
  {
    var rest := Cut(records, at);
    if |rest| < SLOTS then rest else rest[SLOTS - 1 := rest[SLOTS - 1].(slot := Some(k))]
  }

  lemma {:induction false} RemovedRecords(s: State, at: nat)
    requires Inv(s) && at < |s.records|
    ensures HoldsItsSlot(s, at)
    ensures var t := Remove(s, s.records[at].id);
      t.records == if at < SLOTS then AfterHolder(s.records, at, s.records[at].slot.value) else Cut(s.records, at)
  {
    FindAt(s.records, at);
    assert HoldsItsSlot(s, at);
    assert s.records[at].slot.Some? <==> at < SLOTS;
    assert s.records[at].slot.Some? ==> s.records[at].slot.value < |s.slots|;
    hide Inv, HoldsItsSlot, Find;
  }

  lemma {:induction false} RemoveHolderKeepsInv(s: State, at: nat)
    requires Inv(s) && at < |s.records| && at < SLOTS
    ensures Inv(Remove(s, s.records[at].id))
  {
    var id := s.records[at].id;
    FindAt(s.records, at);
    assert HoldsItsSlot(s, at);
    var k := s.records[at].slot.value;
    var t := Remove(s, id);
    assert t.records == AfterHolder(s.records, at, k);
    CountUpdate(s.slots, k, t.slots[k]);
    CutKeepsDistinct(s.records, at, k);
    HolderLeaves(s, t, at, k);
    assert Parity(t.slots, t.generations);
  }

  lemma {:induction false} CutKeepsDistinct(records: seq<Record>, at: nat, k: nat)
    requires at < |records| && DistinctIds(records)
    ensures DistinctIds(AfterHolder(records, at, k))
  {
    var after := AfterHolder(records, at, k);
    assert forall i :: 0 <= i < |after| ==> after[i].id == records[if i < at then i else i + 1].id;
  }

  lemma {:induction false} HolderLeaves(s: State, t: State, at: nat, k: nat)
    requires |s.slots| == |t.slots| == SLOTS && DistinctIds(s.records) && FirstSixHold(s) && SlotsHaveHolders(s)
    requires at < |s.records| && at < SLOTS && s.records[at].slot == Some(k) && k < SLOTS
    requires t.records == AfterHolder(s.records, at, k)
    requires t.slots == s.slots[k := if |s.records| <= SLOTS then None else Some(s.records[SLOTS].id)]
    ensures FirstSixHold(t) && SlotsHaveHolders(t)
  {
    assert HoldsItsSlot(s, at);
    forall i | 0 <= i < |t.records| ensures HoldsItsSlot(t, i) {
      var j := if i < at then i else i + 1;
      assert HoldsItsSlot(s, j);
      assert s.records[j].id != s.records[at].id;
    }
    forall j | 0 <= j < SLOTS && t.slots[j].Some? ensures HolderOf(t, j) {
      if j == k {
        assert t.records[SLOTS - 1].id == t.slots[k].value && t.records[SLOTS - 1].slot == Some(k);
      } else {
        assert HolderOf(s, j);
        hide SlotsHaveHolders, DistinctIds;
        OtherHolderStays(s, t, at, k, j);
      }
    }
  }

  lemma {:induction false} OtherHolderStays(s: State, t: State, at: nat, k: nat, j: nat)
    requires FirstSixHold(s) && at < |s.records| && at < SLOTS && s.records[at].slot == Some(k)
    requires j != k && j < |s.slots| && j < |t.slots| && t.slots[j] == s.slots[j] && s.slots[j].Some?
    requires HolderOf(s, j) && t.records == AfterHolder(s.records, at, k)
    ensures HolderOf(t, j)
  {
    var i :| 0 <= i < |s.records| && s.records[i].id == s.slots[j].value && s.records[i].slot == Some(j);
    assert HoldsItsSlot(s, i);
    var i' := if i < at then i else i - 1;
    assert t.records[i'] == s.records[i];
  }

  lemma {:induction false} RemoveAllKeepsInv(s: State, ids: seq<Id>)
    requires Inv(s)
    ensures Inv(RemoveAll(s, ids))
    decreases |ids|
  {
    if |ids| > 0 {
      RemoveAllKeepsInv(s, ids[..|ids| - 1]);
      RemoveKeepsInv(RemoveAll(s, ids[..|ids| - 1]), ids[|ids| - 1]);
    }
  }
}
