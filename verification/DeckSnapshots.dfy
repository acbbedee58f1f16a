/** Which snapshots a registration accepts over a whole run, and what the display may show because of them. */
module DeckSnapshots {
  import opened DeckModel
  import opened DeckRuns

  /** An accepted snapshot, and when it was taken in. */
  datatype Entry = Entry(producer: string, seqNo: int, status: Status, pending: nat, at: real)

  function EntryOf(d: Snapshot, now: real): Entry
    requires BadSnapshot(d).None?
  {
    Entry(d.producer.value, d.seqNo.value, d.status.value, d.pending.value, now)
  }

  predicate Accepts(s: State, e: Event) {
    e.Update? && BadSnapshot(e.snapshot).None? && Has(s, e.id)
    && !StaleSnapshot(Get(s, e.id), e.snapshot)
  }

  /** The snapshots accepted so far for the registration now known as `id`; none if there is no such. */
  function LogOf(events: seq<Event>, id: Id): seq<Entry> {
    if |events| == 0 then []
    else
      var before, e := events[..|events| - 1], events[|events| - 1];
      if !Has(At(events), id) || !Has(At(before), id) then []
      else if Accepts(At(before), e) && e.id == id then LogOf(before, id) + [EntryOf(e.snapshot, e.now)]
      else LogOf(before, id)
  }

  /** Blocks, one a producer: entries of one producer stand together and their numbers rise strictly. */
  ghost predicate InBlocks(log: seq<Entry>) {
    forall i, j :: 0 <= i < j < |log| && log[i].producer == log[j].producer ==>
      log[i].seqNo < log[j].seqNo && forall m :: i <= m <= j ==> log[m].producer == log[i].producer
  }

  /** The record shows the last entry of its log and has retired the producers of the earlier blocks. */
  ghost predicate Reflects(r: Record, log: seq<Entry>) {
    if |log| == 0 then
      r.producer.None? && r.seqNo == -1 && r.retired == [] && r.status == Unknown
    else
      var last := log[|log| - 1];
      && r.producer == Some(last.producer) && r.seqNo == last.seqNo
      && r.status == last.status && r.pending == last.pending && r.lastState == last.at
      && forall p :: p in r.retired <==> p != last.producer && Spoke(log, p)
  }

  ghost predicate Spoke(log: seq<Entry>, p: string) {
    exists i :: 0 <= i < |log| && log[i].producer == p
  }

  lemma {:induction false} SpokeGrows(log: seq<Entry>, e: Entry, p: string)
    ensures Spoke(log + [e], p) <==> Spoke(log, p) || e.producer == p
  {
    if Spoke(log, p) {
      var i :| 0 <= i < |log| && log[i].producer == p;
      assert (log + [e])[i].producer == p;
    }
    if e.producer == p {
      assert (log + [e])[|log|].producer == p;
    }
  }

  /** A valid snapshot is stale exactly when appending it to what was accepted would break the blocks. */
  lemma {:induction false} StaleExactlyWhenBlocksBreak(r: Record, log: seq<Entry>, d: Snapshot, now: real)
    requires Reflects(r, log) && InBlocks(log) && BadSnapshot(d).None?
    ensures StaleSnapshot(r, d) <==> !InBlocks(log + [EntryOf(d, now)])
  {
    var e, n := EntryOf(d, now), |log|;
    var longer := log + [e];
    assert longer[n] == e && forall i :: 0 <= i < n ==> longer[i] == log[i];
    if n > 0 {
      var last := log[n - 1];
      if e.producer in r.retired {
        assert Spoke(log, e.producer);
        var i :| 0 <= i < n && log[i].producer == e.producer;
        assert longer[i].producer == longer[n].producer && longer[n - 1].producer != longer[i].producer;
      } else if e.producer == last.producer {
        if e.seqNo <= last.seqNo {
          assert longer[n - 1].producer == longer[n].producer;
        } else {
          forall i | 0 <= i < n && longer[i].producer == e.producer
            ensures longer[i].seqNo < e.seqNo
            ensures forall m :: i <= m <= n ==> longer[m].producer == longer[i].producer
          {
          }
        }
      } else {
        assert !Spoke(log, e.producer);
        assert forall i :: 0 <= i < n ==> longer[i].producer != e.producer;
      }
    }
  }

  lemma {:induction false} AcceptReflects(r: Record, log: seq<Entry>, d: Snapshot, now: real, seen: real)
    requires Reflects(r, log) && BadSnapshot(d).None? && !StaleSnapshot(r, d)
    ensures Reflects(Refreshed(r, d, now).(lastSeen := seen), log + [EntryOf(d, now)])
  {
    var e := EntryOf(d, now);
    var q := Refreshed(r, d, now);
    forall p ensures p in q.retired <==> p != e.producer && Spoke(log + [e], p) {
      SpokeGrows(log, e, p);
      if |log| > 0 {
        assert log[|log| - 1].producer == p ==> Spoke(log, p);
      }
    }
  }

  predicate SameTelemetry(r: Record, q: Record) {
    && r.producer == q.producer && r.seqNo == q.seqNo && r.retired == q.retired
    && r.status == q.status && r.pending == q.pending && r.lastState == q.lastState
  }

  /** Only an accepted snapshot of its own changes what a record reports; a rejected one changes nothing. */
  lemma {:induction false} OthersLeaveTelemetry(s: State, e: Event, id: Id)
    requires Inv(s) && Has(s, id) && Has(Step(s, e), id) && !(Accepts(s, e) && e.id == id)
    ensures SameTelemetry(Get(s, id), Get(Step(s, e), id))
  {
    match e
    case Register(r, verdict, now) =>
      var at := Find(s.records, r.id);
      if Upsert(s, r, verdict, now).Ok? {
        if at.Some? {
          RewriteOthers(s, at.value, s.records[at.value].(lastSeen := now), id);
        } else {
          UpsertKeepsInv(s, r, verdict, now);
          GetAt(Step(s, e), Find(s.records, id).value);
        }
      }
    case Update(key, d, now, seen) =>
      if Accepts(s, e) {
        var at := Find(s.records, key).value;
        RewriteOthers(s, at, Refreshed(s.records[at], d, now).(lastSeen := seen), id);
      } else {
        assert Step(s, e) == s;
      }
    case Delete(key) => RemoveOthers(s, key, id);
    case SweepAll(verdicts) =>
      if |verdicts| == |s.records| {
        RemoveAllOthers(s, DeadIds(s.records, verdicts), id);
      }
  }

  /** Only registering an id that is not known brings a record in. */
  lemma {:induction false} NobodyElseAdds(s: State, e: Event, id: Id)
    requires Inv(s) && !(e.Register? && !Has(s, e.registration.id))
    ensures Has(Step(s, e), id) ==> Has(s, id)
  {
    match e
    case Register(r, verdict, now) =>
      if Upsert(s, r, verdict, now).Ok? {
        var at := Find(s.records, r.id).value;
        RewriteOthers(s, at, s.records[at].(lastSeen := now), id);
      }
    case Update(key, d, now, seen) =>
      if Accepts(s, e) {
        var at := Find(s.records, key).value;
        RewriteOthers(s, at, Refreshed(s.records[at], d, now).(lastSeen := seen), id);
      }
    case Delete(key) => RemoveOthers(s, key, id);
    case SweepAll(verdicts) =>
      if |verdicts| == |s.records| {
        RemoveAllOthers(s, DeadIds(s.records, verdicts), id);
      }
  }

  lemma {:induction false} NewcomerIsBlank(s: State, e: Event, id: Id)
    requires Inv(s) && !Has(s, id) && Has(Step(s, e), id)
    ensures Reflects(Get(Step(s, e), id), [])
  {
    if e.Register? && !Has(s, e.registration.id) {
      var t, n := Step(s, e), |s.records|;
      UpsertKeepsInv(s, e.registration, e.verdict, e.now);
      assert forall j :: 0 <= j < n ==> t.records[j].id == s.records[j].id != id;
      GetAt(t, n);
    } else {
      NobodyElseAdds(s, e, id);
    }
  }

  lemma {:induction false} AcceptedIsRefreshed(s: State, e: Event)
    requires Inv(s) && Accepts(s, e)
    ensures Has(Step(s, e), e.id)
    ensures Get(Step(s, e), e.id) == Refreshed(Get(s, e.id), e.snapshot, e.now).(lastSeen := e.seen)
  {
    var at := Find(s.records, e.id).value;
    RewriteOthers(s, at, Refreshed(s.records[at], e.snapshot, e.now).(lastSeen := e.seen), e.id);
  }

  lemma {:induction false} SameTelemetryReflects(r: Record, q: Record, log: seq<Entry>)
    requires Reflects(r, log) && SameTelemetry(r, q)
    ensures Reflects(q, log)
  {
  }

  /** Producer fencing over a whole run: what a registration has accepted stands in blocks, one a producer,
      with rising numbers and no producer in two blocks, and its record shows the last of them. */
  lemma {:induction false} AcceptedInBlocks(events: seq<Event>, id: Id)
    requires Has(At(events), id)
    ensures InBlocks(LogOf(events, id)) && Reflects(Get(At(events), id), LogOf(events, id))
    decreases |events|
  {
    if |events| > 0 {
      var before, e := events[..|events| - 1], events[|events| - 1];
      var s := At(before);
      RunKeepsInv(before);
      hide Inv, Reflects, InBlocks, Step, StaleSnapshot, Refreshed;
      if !Has(s, id) {
        NewcomerIsBlank(s, e, id);
        EmptyInBlocks();
      } else {
        AcceptedInBlocks(before, id);
        if Accepts(s, e) && e.id == id {
          StaleExactlyWhenBlocksBreak(Get(s, id), LogOf(before, id), e.snapshot, e.now);
          AcceptReflects(Get(s, id), LogOf(before, id), e.snapshot, e.now, e.seen);
          AcceptedIsRefreshed(s, e);
        } else {
          OthersLeaveTelemetry(s, e, id);
          SameTelemetryReflects(Get(s, id), Get(At(events), id), LogOf(before, id));
        }
      }
    }
  }

  lemma {:induction false} EmptyInBlocks()
    ensures InBlocks([])
  {
  }

  /** At any point of a run a valid snapshot for a live registration is taken exactly when the accepted ones
      stay in blocks with it; a rejected one leaves the whole registry as it was. */
  lemma {:induction false} SnapshotTakenExactlyWhenFenced(events: seq<Event>, id: Id, d: Snapshot, now: real,
                                                          seen: real)
    requires Has(At(events), id) && BadSnapshot(d).None?
    ensures var out := Accept(At(events), id, d, now, seen);
      && out.Ok?
      && (out.value.1 <==> InBlocks(LogOf(events, id) + [EntryOf(d, now)]))
      && (!out.value.1 ==> out.value.0 == At(events))
  {
    AcceptedInBlocks(events, id);
    StaleExactlyWhenBlocksBreak(Get(At(events), id), LogOf(events, id), d, now);
  }

  /** What a snapshot's contents mean on the key. */
  function Meaning(e: Entry): Appearance {
    if e.pending != 0 then Input
    else if e.status == Busy || e.status == Retry then Running
    else ShowIdle
  }

  /** The display never lies: a key is off exactly when its slot is empty; it shows input, running or idle
      exactly when the holder's latest accepted snapshot is known and at most `staleAfter` old, and then what
      that snapshot means; otherwise it says unknown. */
  lemma {:induction false} DisplayNeverLies(events: seq<Event>, k: nat, now: real, staleAfter: real)
    requires k < SLOTS
    ensures var v, s := ViewOf(At(events), k, now, staleAfter), At(events);
      && v.id == s.slots[k] && v.generation == s.generations[k]
      && (v.state == Off <==> s.slots[k].None?)
      && (s.slots[k].Some? ==>
            var log := LogOf(events, s.slots[k].value);
            var current := |log| > 0 && log[|log| - 1].status != Unknown && now - log[|log| - 1].at <= staleAfter;
            v.state == if current then Meaning(log[|log| - 1]) else ShowUnknown)
  {
    RunKeepsInv(events);
    hide Inv, At, LogOf, InBlocks;
    var s := At(events);
    if s.slots[k].Some? {
      HolderIsThere(s, k);
      AcceptedInBlocks(events, s.slots[k].value);
    }
  }
}
