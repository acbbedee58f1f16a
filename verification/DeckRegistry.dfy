/** The registry object of `opencode-deck/opencode-deck/ocdeck/model.py`: the fields its lock protects, and its
    methods as the source writes them, proved against the calls of `DeckModel`. */
module DeckRegistry {
  import opened DeckModel
  import opened DeckRuns

  class Registry {
    const staleAfter: real
    var records: seq<Record>
    var slots: seq<Option<Id>>
    var generations: seq<nat>

    function Value(): State
      reads this
    {
      State(records, slots, generations)
    }

    ghost predicate Valid()
      reads this
    {
      Inv(Value())
    }

    constructor (staleAfter: real)
      ensures Valid() && Value() == Init() && this.staleAfter == staleAfter
    {
      this.staleAfter := staleAfter;
      records := [];
      slots := seq(SLOTS, _ => None);
      generations := seq(SLOTS, _ => 0);
      new;
      InitInv();
      assert Value() == Init();
    }

    /** Registers an instance or renews it; the result is a copy of its record. */
    method Upsert(r: Registration, verdict: Verdict, now: real) returns (out: Result<Record>)
      requires Valid()
      modifies this
      ensures Valid()
      ensures match DeckModel.Upsert(old(Value()), r, verdict, now)
        case Ok(t) => Value() == t && Has(t, r.id) && out == Ok(Get(t, r.id))
        case Err(e) => Value() == old(Value()) && out == Err(e)
    {
      ghost var s := Value();
      UpsertKeepsInv(s, r, verdict, now);
      hide Inv;
      if !(1 <= |r.id| <= 128) {
        return Err(BadId);
      }
      var at := Find(records, r.id);
      if at.None? {
        if r.process.None? || verdict != Alive {
          return Err(NotLive);
        }
        var slot := FirstFree(slots);
        if slot.Some? {
          generations := generations[slot.value := generations[slot.value] + 1];
          slots := slots[slot.value := Some(r.id)];
        }
        records := records + [NewRecord(r, r.process.value, slot, now)];
        at := Some(|records| - 1);
        assert records[at.value].(lastSeen := now) == records[at.value];
        assert records[at.value := records[at.value]] == records;
        assert Value() == Append(s, records[at.value]);
      } else if r.process != Some(records[at.value].process) {
        return Err(IdentityChanged);
      }
      records := records[at.value := records[at.value].(lastSeen := now)];
      assert DeckModel.Upsert(s, r, verdict, now) == DeckModel.Ok(Value());
      InvIsDistinct(Value());
      GetAt(Value(), at.value);
      return Ok(records[at.value]);
    }

    /** Takes a snapshot in unless its producer was replaced or has been further. */
    method Snapshot(id: Id, d: DeckModel.Snapshot, now: real, seen: real) returns (out: Result<bool>)
      requires Valid()
      modifies this
      ensures Valid()
      ensures match Accept(old(Value()), id, d, now, seen)
        case Ok((t, taken)) => Value() == t && out == Ok(taken)
        case Err(e) => Value() == old(Value()) && out == Err(e)
    {
      ghost var s := Value();
      AcceptKeepsInv(s, id, d, now, seen);
      hide Inv;
      var bad := BadSnapshot(d);
      if bad.Some? {
        return Err(bad.value);
      }
      var found := Find(records, id);
      if found.None? {
        return Err(NotRegistered);
      }
      var at := found.value;
      if d.producer.value in records[at].retired {
        return Ok(false);
      }
      if records[at].producer != d.producer {
        if records[at].producer.Some? {
          records := records[at := records[at].(retired := records[at].retired + [records[at].producer.value])];
        }
        records := records[at := records[at].(producer := d.producer, seqNo := -1)];
      }
      if d.seqNo.value <= records[at].seqNo {
        assert Value() == old(Value());
        return Ok(false);
      }
      records := records[at := records[at].(seqNo := d.seqNo.value, status := d.status.value,
                                            pending := d.pending.value, detail := Clip(d.detail, 200),
                                            lastState := now, lastSeen := seen)];
      assert records[at] == Refreshed(s.records[at], d, now).(lastSeen := seen);
      assert records == s.records[at := records[at]];
      return Ok(true);
    }

    /** Drops a record; its slot, if it had one, goes to the first record that waits. */
    method Remove(id: Id)
      requires Valid()
      modifies this
      ensures Valid() && Value() == DeckModel.Remove(old(Value()), id)
    {
      ghost var s := Value();
      var at := Find(records, id);
      if at.Some? {
        var slot := records[at.value].slot;
        SlotInRange(s, at.value);
        records := records[..at.value] + records[at.value + 1..];
        if slot.Some? {
          slots := slots[slot.value := None];
          generations := generations[slot.value := generations[slot.value] + 1];
        }
      }
      Promote(s, id);
      RemoveKeepsInv(s, id);
    }

    /** The second half of `Remove`: records without a slot take the free ones, in registration order. */
    method Promote(ghost s: State, ghost id: Id)
      requires Inv(s) && Value() == Vacated(s, id)
      modifies this
      ensures Value() == DeckModel.Remove(s, id)
    {
      ghost var mid := Value();
      for i := 0 to |records|
        invariant |records| == |mid.records|
        invariant Value() == if i < SLOTS then mid else DeckModel.Remove(s, id)
      {
        PromotionAt(s, id, i);
        var free := FirstFree(slots);
        if records[i].slot.None? && free.Some? {
          generations := generations[free.value := generations[free.value] + 1];
          slots, records := slots[free.value := Some(records[i].id)], records[i := records[i].(slot := free)];
        }
      }
      if |records| < SLOTS {
        NobodyToPromote(s, id);
      }
    }

    /** Removes every record whose process is definitively gone: `verdicts[i]` is the probe's answer for the
        i-th record there was when the sweep began. */
    method Sweep(verdicts: seq<Verdict>)
      requires Valid() && |verdicts| == |records|
      modifies this
      ensures Valid() && Value() == DeckModel.Sweep(old(Value()), verdicts)
    {
      var items := records;
      ghost var s := Value();
      assert verdicts[..0] == [];
      for i := 0 to |items|
        invariant Valid()
        invariant Value() == RemoveAll(s, DeadIds(items, verdicts[..i]))
      {
        assert verdicts[..i + 1][..i] == verdicts[..i];
        ghost var dead := DeadIds(items, verdicts[..i]);
        if verdicts[i] == Dead {
          assert (dead + [items[i].id])[..|dead|] == dead;
          Remove(items[i].id);
        }
      }
      assert verdicts[..|items|] == verdicts;
    }

    /** What the six keys should show; `clock[k]` is the reading taken for slot `k`. */
    method View(clock: seq<real>) returns (views: seq<DeckModel.View>)
      requires Valid() && |clock| == SLOTS
      ensures |views| == SLOTS
      ensures forall k :: 0 <= k < SLOTS ==> views[k] == ViewOf(Value(), k, clock[k], staleAfter)
    {
      views := [];
      for k := 0 to |slots|
        invariant |views| == k
        invariant forall j :: 0 <= j < k ==> views[j] == ViewOf(Value(), j, clock[j], staleAfter)
      {
        var state, text, detail := Off, "", "";
        var at := if slots[k].Some? then Find(records, slots[k].value) else None;
        if at.Some? {
          var r := records[at.value];
          if clock[k] - r.lastState > staleAfter || r.status == Unknown {
            state := ShowUnknown;
          } else if r.pending != 0 {
            state := Input;
          } else if r.status == Busy || r.status == Retry {
            state := Running;
          } else {
            state := ShowIdle;
          }
          text, detail := r.title, r.detail;
        }
        views := views + [DeckModel.View.View(k, generations[k], slots[k], state, text, detail)];
      }
    }

    /** The record a press is for, as a copy, if the press is not stale and its process is alive. */
    method Resolve(slot: Option<int>, generation: Option<int>, id: Option<Id>, verdict: Verdict)
      returns (r: Option<Record>)
      requires Valid()
      ensures r == DeckModel.Resolve(Value(), slot, generation, id, verdict)
      ensures verdict != Alive ==> r.None?
    {
      if slot.None? || !(0 <= slot.value < SLOTS) {
        return None;
      }
      if slots[slot.value] != id || Some(generations[slot.value] as int) != generation {
        return None;
      }
      var at := if id.Some? then Find(records, id.value) else None;
      if at.None? || verdict != Alive {
        return None;
      }
      return Some(records[at.value]);
    }
  }

  lemma {:induction false} InvIsDistinct(s: State)
    requires Inv(s)
    ensures DistinctIds(s.records)
  {
  }

  lemma {:induction false} SlotInRange(s: State, i: nat)
    requires Inv(s) && i < |s.records|
    ensures s.records[i].slot.Some? ==> s.records[i].slot.value < SLOTS
  {
    assert HoldsItsSlot(s, i);
  }

  /** The state after the record is out and before anybody is promoted. */
  ghost function Vacated(s: State, id: Id): State
    requires |s.slots| == |s.generations|
  {
    var at := Find(s.records, id);
    if at.None? then s
    else
      var rest, slot := Cut(s.records, at.value), s.records[at.value].slot;
      if slot.None? || slot.value >= |s.slots| then s.(records := rest)
      else State(rest, s.slots[slot.value := None], s.generations[slot.value := s.generations[slot.value] + 1])
  }

  /** What the promotion loop meets at `i`: nothing to do below the sixth place and nothing left above it; at
      the sixth, a record without a slot takes the one that is free. */
  lemma {:induction false} PromotionAt(s: State, id: Id, i: nat)
    requires Inv(s) && i < |Vacated(s, id).records|
    ensures var t := if i < SLOTS then Vacated(s, id) else Remove(s, id);
      && |t.records| == |Vacated(s, id).records|
      && (i < SLOTS - 1 ==> t.records[i].slot.Some?)
      && (i >= SLOTS ==> FirstFree(t.slots).None?)
      && (i == SLOTS - 1 ==> Remove(s, id) == if t.records[i].slot.Some? then t else Promoted(t, i))
      && (i == SLOTS - 1 && t.records[i].slot.None? ==> FirstFree(t.slots).Some?)
  {
    var at := Find(s.records, id);
    if i == SLOTS - 1 {
      PromotionDue(s, id);
    } else if at.None? {
      assert HoldsItsSlot(s, i);
      CountFull(s.slots);
    } else {
      RemovedRecords(s, at.value);
      assert HoldsItsSlot(s, if i < at.value then i else i + 1);
      if i >= SLOTS {
        RemoveKeepsInv(s, id);
        CountFull(Remove(s, id).slots);
      }
    }
  }

  function Promoted(t: State, i: nat): State
    requires |t.slots| == |t.generations| && i < |t.records|
  {
    var free := FirstFree(t.slots);
    if free.None? then t
    else State(t.records[i := t.records[i].(slot := free)], t.slots[free.value := Some(t.records[i].id)],
               t.generations[free.value := t.generations[free.value] + 1])
  }

  lemma {:induction false} PromotionDue(s: State, id: Id)
    requires Inv(s) && |Vacated(s, id).records| >= SLOTS
    ensures var t, i := Vacated(s, id), SLOTS - 1;
      && Remove(s, id) == (if t.records[i].slot.Some? then t else Promoted(t, i))
      && (t.records[i].slot.None? ==> FirstFree(t.slots).Some?)
  {
    var at, i := Find(s.records, id), SLOTS - 1;
    if at.None? {
      assert HoldsItsSlot(s, i);
    } else {
      assert HoldsItsSlot(s, at.value) && HoldsItsSlot(s, i) && HoldsItsSlot(s, SLOTS);
      if at.value < SLOTS {
        OnlyOneFree(s, s.records[at.value].slot.value);
      }
    }
  }

  lemma {:induction false} OnlyOneFree(s: State, k: nat)
    requires Inv(s) && |s.records| > SLOTS && k < SLOTS
    ensures FirstFree(s.slots[k := None]) == Some(k)
  {
    CountFull(s.slots);
    var at := FirstFree(s.slots[k := None]);
    assert s.slots[k := None][k].None?;
    assert at.Some?;
  }

  lemma {:induction false} NobodyToPromote(s: State, id: Id)
    requires Inv(s) && |Vacated(s, id).records| < SLOTS
    ensures Remove(s, id) == Vacated(s, id)
  {
    var at := Find(s.records, id);
    if at.Some? {
      assert HoldsItsSlot(s, at.value);
    }
  }
}
