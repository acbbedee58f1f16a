/** What a caller of the registry of `opencode-deck/opencode-deck/ocdeck/model.py` may rely on, call by call, in terms
    of what it passed and what was there. */
module DeckAnswers {
  import opened DeckModel
  import opened DeckRuns

  // ---------------------------------------------------------------- registering

  /** A registration is refused for its id when that is empty or longer than 128 characters, else for another process
      when the id is known, else when there is no process or it is not found alive; otherwise it is taken. */
  lemma {:induction false} RegistersExactly(s: State, r: Registration, verdict: Verdict, now: real)
    requires |s.slots| == |s.generations|
    ensures Upsert(s, r, verdict, now) == Err(BadId) <==> |r.id| == 0 || |r.id| > 128
    ensures Upsert(s, r, verdict, now) == Err(IdentityChanged)
       <==> 0 < |r.id| <= 128 && Has(s, r.id) && r.process != Some(Get(s, r.id).process)
    ensures Upsert(s, r, verdict, now) == Err(NotLive)
       <==> 0 < |r.id| <= 128 && !Has(s, r.id) && (r.process.None? || verdict != Alive)
    ensures Upsert(s, r, verdict, now).Ok?
       <==> 0 < |r.id| <= 128
            && if Has(s, r.id) then r.process == Some(Get(s, r.id).process) else r.process.Some? && verdict == Alive
  {
  }

  /** The text as far as `n` characters. */
  ghost predicate StartOf(start: string, text: string, n: nat) {
    start <= text && |start| == if |text| < n then |text| else n
  }

  /** A first registration is as it was asked for, cut to length, in the lowest free slot or waiting, of unknown status;
      and the first valid snapshot it gets is taken, from whatever producer and whatever its number. */
  lemma {:induction false} NewcomerIsAsAsked(s: State, r: Registration, verdict: Verdict, now: real)
    requires Inv(s) && !Has(s, r.id) && Upsert(s, r, verdict, now).Ok?
    ensures var t := Upsert(s, r, verdict, now).value;
      && |t.records| == |s.records| + 1 && t.records[..|s.records|] == s.records && Has(t, r.id)
      && var q := Get(t, r.id);
      && q == t.records[|s.records|] && r.process == Some(q.process)
      && StartOf(q.title, r.title, 100) && StartOf(q.windowToken, r.windowToken, 128)
      && q.status == Unknown && q.pending == 0 && q.detail == "Connecting" && q.lastSeen == now && q.lastState == 0.0
      && (forall d: Snapshot :: BadSnapshot(d).None? ==> !StaleSnapshot(q, d))
      && (forall k :: 0 <= k < SLOTS ==>
            (q.slot == Some(k) <==> s.slots[k].None? && forall j :: 0 <= j < k ==> s.slots[j].Some?))
  {
    UpsertKeepsInv(s, r, verdict, now);
    GetAt(Upsert(s, r, verdict, now).value, |s.records|);
  }

  /** A renewal moves the time the instance was last seen, and nothing else. */
  lemma {:induction false} RenewalOnlySees(s: State, r: Registration, verdict: Verdict, now: real)
    requires Inv(s) && Has(s, r.id) && Upsert(s, r, verdict, now).Ok?
    ensures var t := Upsert(s, r, verdict, now).value;
      && t.slots == s.slots && t.generations == s.generations && |t.records| == |s.records|
      && forall i :: 0 <= i < |s.records| ==>
           t.records[i] == if s.records[i].id == r.id then s.records[i].(lastSeen := now) else s.records[i]
  {
    var at := Find(s.records, r.id).value;
    assert forall i :: 0 <= i < |s.records| && i != at ==> s.records[i].id != r.id;
  }

  // ---------------------------------------------------------------- snapshots

  /** Why a snapshot is refused: its status, then its number and producer, then its count, then its id. */
  lemma {:induction false} SnapshotRefusedExactly(s: State, id: Id, d: Snapshot, now: real, seen: real)
    ensures var out := Accept(s, id, d, now, seen);
      var numbered := d.seqNo.Some? && d.seqNo.value >= 0 && d.producer.Some? && 0 < |d.producer.value| <= 128;
      var counted := d.pending.Some? && 0 <= d.pending.value <= 10000;
      && (out == Err(BadStatus) <==> d.status.None?)
      && (out == Err(BadSequence) <==> d.status.Some? && !numbered)
      && (out == Err(BadPending) <==> d.status.Some? && numbered && !counted)
      && (out == Err(NotRegistered) <==> d.status.Some? && numbered && counted && !Has(s, id))
      && (out.Ok? <==> d.status.Some? && numbered && counted && Has(s, id))
  {
  }

  /** A snapshot that is taken is what the record says from then on, in all it reports; who it is stays. */
  lemma {:induction false} TakenIsReported(s: State, id: Id, d: Snapshot, now: real, seen: real)
    requires Inv(s) && Accept(s, id, d, now, seen).Ok? && Accept(s, id, d, now, seen).value.1
    ensures var t := Accept(s, id, d, now, seen).value.0;
      && t.slots == s.slots && t.generations == s.generations && Has(s, id) && Has(t, id)
      && var r, q := Get(s, id), Get(t, id);
      && Some(q.status) == d.status && Some(q.pending as int) == d.pending && Some(q.seqNo) == d.seqNo
      && q.producer == d.producer && StartOf(q.detail, d.detail, 200) && q.lastState == now && q.lastSeen == seen
      && SameRegistration(r, q) && q.slot == r.slot
  {
    var at := Find(s.records, id).value;
    RewriteOthers(s, at, Refreshed(s.records[at], d, now).(lastSeen := seen), id);
  }

  // ---------------------------------------------------------------- removing

  /** A removal raises the generation of the slot it frees by one, and by another one when a record that waits takes the
      slot over; it raises no other. */
  lemma {:induction false} RemovalRaises(s: State, id: Id)
    requires Inv(s)
    ensures forall k :: 0 <= k < SLOTS ==>
      Remove(s, id).generations[k] == s.generations[k] +
        if s.slots[k] != Some(id) then 0 else if |s.records| <= SLOTS then 1 else 2
  {
    var at := Find(s.records, id);
    if at.Some? {
      assert HoldsItsSlot(s, at.value);
      SlotIsOfItsHolder(s, at.value);
    } else {
      forall k | 0 <= k < SLOTS ensures s.slots[k] != Some(id) {
        assert s.slots[k].Some? ==> HolderOf(s, k);
      }
    }
  }

  lemma {:induction false} SlotIsOfItsHolder(s: State, i: nat)
    requires Inv(s) && i < |s.records|
    ensures forall k :: 0 <= k < SLOTS ==> (s.slots[k] == Some(s.records[i].id) <==> s.records[i].slot == Some(k))
  {
    assert HoldsItsSlot(s, i);
    forall k | 0 <= k < SLOTS && s.slots[k] == Some(s.records[i].id) ensures s.records[i].slot == Some(k) {
      assert HolderOf(s, k);
      var j :| 0 <= j < |s.records| && s.records[j].id == s.slots[k].value && s.records[j].slot == Some(k);
      assert i == j;
    }
  }

  // ---------------------------------------------------------------- looking and pressing

  /** What a key shows of the record that holds its slot: unknown when it has not reported in time or does not know,
      else input when anything is pending, else running when it is busy or retries, else idle; with its texts. */
  lemma {:induction false} ShowsTheHolder(s: State, k: nat, now: real, staleAfter: real)
    requires |s.slots| == |s.generations| && k < |s.slots|
    ensures var v := ViewOf(s, k, now, staleAfter);
      && v.slot == k && v.id == s.slots[k] && v.generation == s.generations[k]
      && if s.slots[k].Some? && Has(s, s.slots[k].value) then
           var r := Get(s, s.slots[k].value);
           var late := now - r.lastState > staleAfter;
           && v.title == r.title && v.detail == r.detail
           && (v.state == ShowUnknown <==> late || r.status == Unknown)
           && (v.state == Input <==> !late && r.status != Unknown && r.pending > 0)
           && (v.state == Running <==> !late && r.pending == 0 && r.status in {Busy, Retry})
           && (v.state == ShowIdle <==> !late && r.pending == 0 && r.status == Idle)
         else v.state == Off && v.title == "" && v.detail == ""
  {
  }

  /** A press comes through exactly when it names one of the six slots, and with it the id and the generation that slot
      has now, that id is registered, and its process is found alive; and then to that record. */
  lemma {:induction false} ResolvesExactly(s: State, slot: Option<int>, generation: Option<int>, id: Option<Id>,
                                           verdict: Verdict)
    requires |s.slots| == |s.generations| == SLOTS
    ensures Resolve(s, slot, generation, id, verdict).Some?
       <==> slot.Some? && 0 <= slot.value < 6 && id.Some? && s.slots[slot.value] == id
            && generation.Some? && generation.value == s.generations[slot.value]
            && Has(s, id.value) && verdict == Alive
    ensures Resolve(s, slot, generation, id, verdict).Some? ==>
      Resolve(s, slot, generation, id, verdict).value in s.records
      && Resolve(s, slot, generation, id, verdict).value.id == id.value
  {
  }
}
