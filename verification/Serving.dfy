/** The two routing paths as the code runs them: `ServeHTTP` with `orderedCandidates` in
    `router/internal/proxy/proxy.go`, and `Select` in `.../routing/classify.go`, by a caller that nobody disturbs. */
module Serving {
  import P = Pool
  import opened RegistryTable
  import opened Routing
  import opened Choice

  type Log = seq<(Id, Reason)>

  /** The capability, context and lifecycle gates, in the order both paths write them. */
  method Filter(entries: seq<Entry>, need: Need) returns (kept: seq<Entry>, log: Log)
    ensures kept == Eligible(entries, need) && log == Rejections(entries, need)
  {
    kept, log := [], [];
    assert entries[..0] == [];
    for i := 0 to |entries|
      invariant kept == Eligible(entries[..i], need) && log == Rejections(entries[..i], need)
    {
      assert entries[..i + 1][..i] == entries[..i];
      var e := entries[i];
      var m := e.manifest;
      if need.images && !m.vision {
        log := log + [(m.id, VisionRequired)];
        continue;
      }
      if need.tools && !m.tools {
        log := log + [(m.id, ToolsRequired)];
        continue;
      }
      if need.streaming && !m.streaming {
        log := log + [(m.id, StreamingRequired)];
        continue;
      }
      if m.maxContext < need.context {
        log := log + [(m.id, ContextTooSmall)];
        continue;
      }
      if !e.state.enabled {
        log := log + [(m.id, EndpointDisabled)];
        continue;
      }
      if !e.state.healthy {
        log := log + [(m.id, EndpointUnhealthy)];
        continue;
      }
      if e.state.draining {
        log := log + [(m.id, EndpointDraining)];
        continue;
      }
      kept := kept + [e];
    }
    assert entries[..|entries|] == entries;
  }

  /** The entries sorted into a new slice. */
  method SortedCopy(entries: seq<Entry>, less: Order) returns (sorted: seq<Entry>)
    ensures sorted == Sort(entries, less)
  {
    var es := new Entry[|entries|](i requires 0 <= i < |entries| => entries[i]);
    assert es[..] == entries;
    SliceStable(es, less);
    sorted := es[..];
  }

  lemma {:induction false} CandidateInTable(t: Table, order: seq<Id>, need: Need, less: Order, e: Entry)
    requires Orders(order, t.Keys) && e in Sort(Eligible(InOrder(t, order), need), less)
    ensures RejectedFor(e, need).None? && InTable(e, t)
  {
    hide Sort, Insert, RejectedFor, Slots, Usable;
    var es := InOrder(t, order);
    SortMembers(Eligible(es, need), less, e);
    var i :| 0 <= i < |es| && es[i] == e;
    assert t[order[i]] == e;
  }

  /** The list has just the endpoints of the table that pass the gates. */
  ghost predicate ListsEligible(ordered: seq<Entry>, t: Table, need: Need)
    reads set id | id in t :: t[id].state, set e | e in ordered :: e.state
  {
    && (forall e :: e in ordered ==> RejectedFor(e, need).None? && InTable(e, t))
    && (forall id :: id in t && RejectedFor(t[id], need).None? ==> t[id] in ordered)
  }

  lemma {:induction false} CandidatesAreEligible(t: Table, order: seq<Id>, need: Need, less: Order)
    requires Orders(order, t.Keys)
    ensures ListsEligible(Sort(Eligible(InOrder(t, order), need), less), t, need)
  {
    hide Sort, Eligible, RejectedFor;
    var c := Sort(Eligible(InOrder(t, order), need), less);
    forall e | e in c ensures RejectedFor(e, need).None? && InTable(e, t) {
      CandidateInTable(t, order, need, less, e);
    }
    forall id | id in t && RejectedFor(t[id], need).None? ensures t[id] in c {
      EligibleIsCandidate(t, order, need, less, id);
    }
  }

  lemma {:induction false} EligibleIsCandidate(t: Table, order: seq<Id>, need: Need, less: Order, id: Id)
    requires Orders(order, t.Keys) && id in t && RejectedFor(t[id], need).None?
    ensures t[id] in Sort(Eligible(InOrder(t, order), need), less)
  {
    hide Sort, RejectedFor;
    var i :| 0 <= i < |order| && order[i] == id;
    assert InOrder(t, order)[i] == t[id];
    SortMembers(Eligible(InOrder(t, order), need), less, t[id]);
  }

  /** Filters and sorts the table, as both paths do, each with its own order. */
  method OrderedCandidates(t: Table, need: Need, less: Order)
    returns (ordered: seq<Entry>, log: Log, ghost order: seq<Id>)
    ensures Orders(order, t.Keys)
    ensures ordered == Sort(Eligible(InOrder(t, order), need), less)
    ensures log == Rejections(InOrder(t, order), need)
    ensures ListsEligible(ordered, t, need)
  {
    hide ListsEligible, Lists, Sort, Eligible, Rejections;
    var entries;
    entries, order := All(t);
    ordered, log := Filter(entries, need);
    ordered := SortedCopy(ordered, less);
    CandidatesAreEligible(t, order, need, less);
  }

  /** The selected pool, if any, has just taken the lease; every other pool of the table is as before. */
  twostate predicate Reserved(t: Table, selected: Option<Entry>, leaseId: Id, now: int)
    reads set id | id in t :: t[id].pool
  {
    forall id :: id in t ==>
      var before := old(t[id].pool.Value());
      t[id].pool.Value() == if selected.Some? && selected.value.pool == t[id].pool
        then P.Taking(before, leaseId, now).0 else before
  }

  /** Walks the list until a pool has a slot; only that pool changes, by the one lease. */
  method ReserveFirstFree(ordered: seq<Entry>, leaseId: Id, now: int) returns (selected: Option<Entry>)
    modifies set e | e in ordered :: e.pool
    ensures selected == FirstIn(ordered, old(Slots(ordered)))
    ensures selected.Some? ==> selected.value in ordered
    ensures selected.Some? ==>
      selected.value.pool.Value() == P.Taking(old(selected.value.pool.Value()), leaseId, now).0
    ensures forall e :: e in ordered && (selected.None? || e.pool != selected.value.pool) ==>
      e.pool.Value() == old(e.pool.Value())
  {
    ghost var free := Slots(ordered);
    selected := None;
    for i := 0 to |ordered|
      invariant selected.None?
      invariant forall k :: 0 <= k < i ==> ordered[k] !in free
      invariant forall e :: e in ordered ==> e.pool.Value() == old(e.pool.Value())
    {
      var ok := ordered[i].pool.Reserve(leaseId, now);
      if ok {
        selected := Some(ordered[i]);
        FirstInAt(ordered, i, free);
        break;
      }
    }
    if selected.None? {
      FirstInNone(ordered, free);
    }
  }

  /** The candidates' own slots are all that picking needs to know. */
  lemma {:induction false} PickOfCandidates(t: Table, order: seq<Id>, need: Need, less: Order)
    requires Orders(order, t.Keys)
    ensures var c := Sort(Eligible(InOrder(t, order), need), less);
      FirstIn(c, Slots(c)) == Pick(t, order, need, less)
    ensures var c := Sort(Eligible(InOrder(t, order), need), less);
      forall e :: e in c ==> InTable(e, t)
  {
    var c := Sort(Eligible(InOrder(t, order), need), less);
    forall e | e in c
      ensures (e in Slots(c) <==> e in Usable(t, need)) && InTable(e, t)
    {
      CandidateInTable(t, order, need, less, e);
    }
    FirstInSame(c, Slots(c), Usable(t, need));
  }

  /** The endpoint can do all that is asked, has the context, is in service and has a slot left. */
  predicate Able(e: Entry, need: Need)
    reads e.state, e.pool
  {
    && (need.images ==> e.manifest.vision) && (need.tools ==> e.manifest.tools)
    && (need.streaming ==> e.manifest.streaming) && need.context <= e.manifest.maxContext
    && e.state.enabled && e.state.healthy && !e.state.draining && e.pool.inflight < e.pool.capacity
  }

  predicate NoneAble(t: Table, need: Need)
    reads set id | id in t :: t[id].pool, set id | id in t :: t[id].state
  {
    forall id :: id in t ==> !Able(t[id], need)
  }

  lemma {:induction false} UsableAreAble(t: Table, need: Need)
    ensures forall e :: e in Usable(t, need) ==> InTable(e, t) && Able(e, need)
    ensures Usable(t, need) == {} ==> NoneAble(t, need)
  {
    forall id | id in t ensures t[id] in Usable(t, need) <==> Able(t[id], need) {
      UsableExactly(t, id, need);
    }
  }

  /** `ServeHTTP` up to the reservation: the lease goes to the least usable endpoint of the table, and the request
      is refused with `CAPACITY_FULL` exactly when no endpoint is usable.  No other pool changes. */
  method Serve(t: Table, need: Need, leaseId: Id, now: int) returns (selected: Option<Entry>, log: Log)
    requires Keyed(t)
    modifies set id | id in t :: t[id].pool
    ensures selected.None? <==> old(Usable(t, need)) == {}
    ensures selected.Some? ==> selected.value in old(Usable(t, need))
    ensures selected.Some? ==> old(LeastUsable(t, selected.value, need))
    ensures Reserved(t, selected, leaseId, now)
    ensures exists order :: Orders(order, t.Keys) && log == old(Rejections(InOrder(t, order), need))
    ensures selected.Some? ==> InTable(selected.value, t) && old(Able(selected.value, need))
    ensures selected.None? ==> old(NoneAble(t, need))
  {
    UsableAreAble(t, need);
    hide Sort, Eligible, Rejections, FullLess, Usable, LeastUsable, FirstIn, Pick, Keyed, ListsEligible, Able, NoneAble;
    var ordered;
    ghost var order;
    ordered, log, order := OrderedCandidates(t, need, FullLess);
    PickOfCandidates(t, order, need, FullLess);
    ProxyPicksLeast(t, order, need);
    ghost var pick := Pick(t, order, need, FullLess);
    if pick.Some? {
      assert LeastUsable(t, pick.value, need);
      LeastIsUsable(t, pick.value, need);
    }
    selected := ReserveFirstFree(ordered, leaseId, now);
    assert Orders(order, t.Keys) && log == old(Rejections(InOrder(t, order), need));
  }

  /** What `Select` adds to its log while it walks the sorted candidates. */
  function Tried(ordered: seq<Entry>, free: set<Entry>): Log {
    if |ordered| == 0 then []
    else if ordered[0] in free then [(ordered[0].manifest.id, Selected)]
    else [(ordered[0].manifest.id, CapacityFull)] + Tried(ordered[1..], free)
  }

  /** The walk names the candidates in their order, each without a slot as full, up to the one selected, or all. */
  lemma {:induction false} TriedInOrder(ordered: seq<Entry>, free: set<Entry>)
    ensures var tried, first := Tried(ordered, free), FirstIn(ordered, free);
      && |tried| <= |ordered| && (first.None? ==> |tried| == |ordered|)
      && (forall i :: 0 <= i < |tried| ==> tried[i].0 == ordered[i].manifest.id)
      && (forall i :: 0 <= i < |tried| ==> (tried[i].1 == CapacityFull <==> ordered[i] !in free))
      && (forall i :: 0 <= i < |tried| && ordered[i] in free ==>
            tried[i].1 == Selected && i == |tried| - 1 && first == Some(ordered[i]))
      && (first.Some? ==> |tried| > 0 && tried[|tried| - 1].1 == Selected)
    decreases |ordered|
  {
    if |ordered| > 0 && ordered[0] !in free {
      TriedInOrder(ordered[1..], free);
    }
  }

  /** The walk of `Select`: as `ReserveFirstFree`, with a line in the log for every candidate tried. */
  method ReserveAndLog(ordered: seq<Entry>, leaseId: Id, now: int, before: Log)
    returns (selected: Option<Entry>, log: Log)
    modifies set e | e in ordered :: e.pool
    ensures selected == FirstIn(ordered, old(Slots(ordered)))
    ensures selected.Some? ==> selected.value in ordered
    ensures selected.Some? ==>
      selected.value.pool.Value() == P.Taking(old(selected.value.pool.Value()), leaseId, now).0
    ensures forall e :: e in ordered && (selected.None? || e.pool != selected.value.pool) ==>
      e.pool.Value() == old(e.pool.Value())
    ensures log == before + Tried(ordered, old(Slots(ordered)))
  {
    ghost var free := Slots(ordered);
    selected, log := None, before;
    assert ordered[0..] == ordered;
    for i := 0 to |ordered|
      invariant forall k :: 0 <= k < i ==> ordered[k] !in free
      invariant forall e :: e in ordered ==> e.pool.Value() == old(e.pool.Value())
      invariant log + Tried(ordered[i..], free) == before + Tried(ordered, free)
    {
      var ok := ordered[i].pool.Reserve(leaseId, now);
      if ok {
        log := log + [(ordered[i].manifest.id, Selected)];
        FirstInAt(ordered, i, free);
        return Some(ordered[i]), log;
      }
      log := log + [(ordered[i].manifest.id, CapacityFull)];
      assert ordered[i..][1..] == ordered[i + 1..];
    }
    FirstInNone(ordered, free);
  }

  /** What `Select` picks is able to serve, and it picks nothing only if nothing is. */
  lemma {:induction false} PairPickIsAble(t: Table, order: seq<Id>, need: Need)
    requires Keyed(t) && Orders(order, t.Keys)
    ensures var pick := Pick(t, order, need, PairLess);
      if pick.Some? then InTable(pick.value, t) && Able(pick.value, need) else NoneAble(t, need)
  {
    UsableAreAble(t, need);
    hide Pick, Able, Usable;
    OrdersAreWeak();
    PickIsForemost(t, order, need, PairLess);
    if Pick(t, order, need, PairLess).Some? {
      var k: nat :| Foremost(InOrder(t, order), k, Usable(t, need), PairLess)
        && Pick(t, order, need, PairLess).value == InOrder(t, order)[k];
    }
  }

  /** `Select`: what it reserves depends on the order in which the map is ranged over. */
  method Select(t: Table, need: Need, leaseId: Id, now: int)
    returns (selected: Option<Entry>, log: Log, ghost order: seq<Id>)
    requires Keyed(t)
    modifies set id | id in t :: t[id].pool
    ensures Orders(order, t.Keys) && selected == old(Pick(t, order, need, PairLess))
    ensures Reserved(t, selected, leaseId, now)
    ensures selected.Some? ==> InTable(selected.value, t) && old(Able(selected.value, need))
    ensures selected.None? ==> old(NoneAble(t, need))
    ensures var es := InOrder(t, order);
      var ordered := Sort(old(Eligible(es, need)), PairLess);
      log == old(Rejections(es, need)) + Tried(ordered, old(Slots(ordered)))
  {
    hide Sort, Eligible, Rejections, PairLess, Usable, FirstIn, Pick, Keyed, Tried, Slots, ListsEligible;
    hide Able, NoneAble;
    var candidates;
    candidates, log, order := OrderedCandidates(t, need, PairLess);
    PickOfCandidates(t, order, need, PairLess);
    PairPickIsAble(t, order, need);
    selected, log := ReserveAndLog(candidates, leaseId, now, log);
  }
}
