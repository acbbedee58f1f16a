/** What a table swap does to the capacity bound of an endpoint: when it survives the swap, and when requests can go
    past it. */
module RcuSwaps {
  import S = PoolSteps
  import opened Rcu
  import opened RcuRuns

  predicate NoSwap(events: seq<Event>) {
    forall i :: 0 <= i < |events| ==> !events[i].Publish?
  }

  /** Pool `p` was published for the endpoint and is not its pool in the current table. */
  predicate Replaced(w: World, e: Id, p: nat) {
    p < |w.pools| && w.pools[p].owner == e && (e !in w.table || w.table[e] != p)
  }

  /** The replaced pools of the endpoint are empty and no request can come to them any more. */
  ghost predicate Shut(w: World, e: Id) {
    && e in w.table && w.table[e] < |w.pools|
    && forall p: nat :: Replaced(w, e, p) ==>
        Out(StateOf(w.pools[p])) == {} && forall id :: id in w.requests ==> !Reaches(w, id, p)
  }

  function CapacityNow(w: World, e: Id): int
    requires e in w.table && w.table[e] < |w.pools|
  {
    if w.pools[w.table[e]].capacity < 1 then 1 else w.pools[w.table[e]].capacity
  }

  lemma {:induction false} NextReaches(w: World, event: Event, id: Id, p: nat)
    requires Inv(w) && !event.Publish? && p < |w.pools|
    requires forall e :: e in w.table ==> w.table[e] != p
    requires forall other :: other in w.requests ==> !Reaches(w, other, p)
    ensures id in Next(w, event).requests ==> !Reaches(Next(w, event), id, p)
  {
    var w' := Next(w, event);
    assert id in w.requests ==> PhaseOk(w.pools, id, w.requests[id]);
    if id in w.requests && w'.requests[id] == w.requests[id] {
      hide Next, Inv;
      StaysAside(w, event, id, p);
    } else {
      hide Inv;
      MovesAside(w, event, id, p);
    }
  }

  /** A request that stays where it is comes no nearer to a pool. */
  lemma {:induction false} StaysAside(w: World, event: Event, id: Id, p: nat)
    requires id in w.requests && id in Next(w, event).requests && Next(w, event).requests[id] == w.requests[id]
    requires p < |w.pools| && !Reaches(w, id, p) && PhaseOk(w.pools, id, w.requests[id])
    ensures !Reaches(Next(w, event), id, p)
  {
    if w.requests[id].Trying? && w.requests[id].pool == p {
      var a := PoolActs(w, event, p);
      ActedSteps(w.pools[p], a);
      hide Next, StateOf;
      NotPendingAgain(StateOf(w.pools[p]), a, w.requests[id].tid);
    } else {
      hide Next, StateOf, ThreadOf;
    }
  }

  /** A request that moves on takes up a pool only from those it had ahead, or from the current table. */
  lemma {:induction false} MovesAside(w: World, event: Event, id: Id, p: nat)
    requires id in w.requests ==> !Reaches(w, id, p) && PhaseOk(w.pools, id, w.requests[id])
    requires id in w.requests ==> Next(w, event).requests[id] != w.requests[id]
    requires forall e :: e in w.table ==> w.table[e] != p
    ensures id in Next(w, event).requests ==> !Reaches(Next(w, event), id, p)
  {
    hide StateOf, ReserverAt, DepartingAt, S.Called;
    match event
    case View(_, _) =>
    case Try(_) =>
    case Settle(_) =>
    case _ =>
  }

  /** A thread that is through with its `Reserve` does not come back to it. */
  lemma {:induction false} NotPendingAgain(s: S.State, a: S.Action, tid: nat)
    requires tid < |s.threads| && !Pending(s.threads[tid])
    ensures tid < |S.Step(s, a).threads| && !Pending(S.Step(s, a).threads[tid])
  {
  }

  lemma {:induction false} NextStaysOut(w: World, event: Event, p: nat)
    requires Inv(w) && p < |w.pools| && Out(StateOf(w.pools[p])) == {}
    requires forall id :: id in w.requests ==> !Reaches(w, id, p)
    ensures p < |Next(w, event).pools| && Out(StateOf(Next(w, event).pools[p])) == {}
  {
    var a := PoolActs(w, event, p);
    var s := StateOf(w.pools[p]);
    if Next(w, event).pools[p] != w.pools[p] {
      ActedSteps(w.pools[p], a);
      assert PoolOk(w.requests, p, w.pools[p]);
      NobodyPends(w, p);
      hide S.Step, StateOf, Inv, PoolOk, Next;
      StaysNotOut(s, a);
    }
  }

  lemma {:induction false} NobodyPends(w: World, p: nat)
    requires p < |w.pools| && PoolOk(w.requests, p, w.pools[p])
    requires forall id :: id in w.requests ==> !Reaches(w, id, p)
    ensures forall i :: 0 <= i < |StateOf(w.pools[p]).threads| ==> !Pending(StateOf(w.pools[p]).threads[i])
  {
    hide StateOf;
  }

  /** With no thread about to take a slot, nothing comes out. */
  lemma {:induction false} StaysNotOut(s: S.State, a: S.Action)
    requires Out(s) == {} && forall i :: 0 <= i < |s.threads| ==> !Pending(s.threads[i])
    ensures Out(S.Step(s, a)) == {}
  {
    var id := TokensMove(s, a);
    hide S.Step;
    assert forall other :: other in s.taken ==> other !in Out(s);
  }

  lemma {:induction false} NextKeepsShut(w: World, event: Event, e: Id)
    requires Inv(w) && Shut(w, e) && !event.Publish?
    ensures Shut(Next(w, event), e)
  {
    var w' := Next(w, event);
    NextKeepsTable(w, event);
    forall p: nat | Replaced(w', e, p)
      ensures Out(StateOf(w'.pools[p])) == {}
      ensures forall id :: id in w'.requests ==> !Reaches(w', id, p)
    {
      assert Replaced(w, e, p);
      NextStaysOut(w, event, p);
      forall id | id in w'.requests ensures !Reaches(w', id, p) {
        NextReaches(w, event, id, p);
      }
    }
  }

  lemma {:induction false} NextKeepsTable(w: World, event: Event)
    requires !event.Publish?
    ensures Next(w, event).table == w.table && |Next(w, event).pools| == |w.pools|
    ensures forall p :: 0 <= p < |w.pools| ==> Next(w, event).pools[p].owner == w.pools[p].owner
    ensures forall p :: 0 <= p < |w.pools| ==> Next(w, event).pools[p].capacity == w.pools[p].capacity
  {
    hide StateOf;
  }

  lemma {:induction false} OnwardKeepsShut(w: World, events: seq<Event>, e: Id)
    requires Inv(w) && Shut(w, e) && NoSwap(events)
    ensures Shut(Onward(w, events), e) && CapacityNow(Onward(w, events), e) == CapacityNow(w, e)
  {
    hide Next, Inv;
    if |events| > 0 {
      var before := events[..|events| - 1];
      OnwardKeepsShut(w, before, e);
      OnwardKeepsInv(w, before);
      NextKeepsShut(Onward(w, before), events[|events| - 1], e);
      NextKeepsTable(Onward(w, before), events[|events| - 1]);
    }
  }

  /** With its replaced pools shut, an endpoint has no more leases outstanding than its current pool has slots. */
  lemma {:induction false} ShutIsBounded(w: World, e: Id)
    requires Inv(w) && Shut(w, e)
    ensures |Outstanding(w, e)| <= CapacityNow(w, e)
  {
    var p := w.table[e];
    assert PoolOk(w.requests, p, w.pools[p]);
    CounterCountsIds(w.pools[p].capacity, w.pools[p].history);
    S.RunKeepsInv(w.pools[p].capacity, w.pools[p].history);
    forall id | id in Outstanding(w, e) ensures id in Out(StateOf(w.pools[p])) {
      OutIsSomewhere(w.pools, e, id);
      var q: nat :| 0 <= q < |w.pools| && w.pools[q].owner == e && id in Out(StateOf(w.pools[q]));
      assert q == p || Replaced(w, e, q);
    }
    SubsetIsSmaller(Outstanding(w, e), Out(StateOf(w.pools[p])));
  }

  lemma {:induction false} SubsetIsSmaller(a: set<Id>, b: set<Id>)
    requires a <= b
    ensures |a| <= |b|
  {
    assert b == a + (b - a);
  }

  lemma {:induction false} SwapOwnsEndpoint(w: World, endpoints: seq<(Id, int)>, e: Id)
    requires exists k :: 0 <= k < |endpoints| && endpoints[k].0 == e
    ensures var w' := Next(w, Publish(endpoints));
      && e in w'.table && |w.pools| <= w'.table[e] < |w'.pools|
      && w'.pools[w'.table[e]].owner == e && w'.pools[w'.table[e]].history == []
  {
    LastEntry(endpoints, |w.pools|, e);
  }

  /** After a swap the replaced pools are shut, if nothing was out for the endpoint and nobody could reach them. */
  lemma {:induction false} SwapShuts(w: World, endpoints: seq<(Id, int)>, e: Id)
    requires Inv(w) && Outstanding(w, e) == {}
    requires exists k :: 0 <= k < |endpoints| && endpoints[k].0 == e
    requires NobodyReaches(w, e)
    ensures Shut(Next(w, Publish(endpoints)), e)
  {
    var w' := Next(w, Publish(endpoints));
    SwapOwnsEndpoint(w, endpoints, e);
    forall p: nat | Replaced(w', e, p)
      ensures Out(StateOf(w'.pools[p])) == {} && forall id :: id in w'.requests ==> !Reaches(w', id, p)
    {
      if p < |w.pools| {
        forall id ensures id !in Out(StateOf(w.pools[p])) {
          OutIsSomewhere(w.pools, e, id);
        }
      } else {
        assert w'.pools[p] == NewPools(endpoints)[p - |w.pools|];
      }
      forall id | id in w'.requests ensures !Reaches(w', id, p) {
        SwapReaches(w, endpoints, id, p);
      }
    }
  }

  /** A swap brings no request nearer to a pool. */
  lemma {:induction false} SwapReaches(w: World, endpoints: seq<(Id, int)>, id: Id, p: nat)
    requires Inv(w) && id in w.requests
    ensures Reaches(Next(w, Publish(endpoints)), id, p) <==> p < |w.pools| && Reaches(w, id, p)
  {
    assert PhaseOk(w.pools, id, w.requests[id]);
    hide Inv, StateOf;
  }

  /** No request can still come to any pool of the endpoint. */
  ghost predicate NobodyReaches(w: World, e: Id) {
    forall id, p: nat :: id in w.requests && p < |w.pools| && w.pools[p].owner == e ==> !Reaches(w, id, p)
  }

  lemma {:induction false} OnwardAppend(w: World, first: seq<Event>, rest: seq<Event>)
    ensures Onward(w, first + rest) == Onward(Onward(w, first), rest)
    decreases |rest|
  {
    hide Next;
    if |rest| == 0 {
      assert first + rest == first;
    } else {
      assert (first + rest)[..|first + rest| - 1] == first + rest[..|rest| - 1];
      OnwardAppend(w, first, rest[..|rest| - 1]);
    }
  }

  lemma {:induction false} OnwardTwo(w: World, a: Event, b: Event)
    ensures Onward(w, [a, b]) == Next(Next(w, a), b)
  {
    hide Next;
    assert [a, b][..1] == [a] && [a][..0] == [];
    assert Onward(w, []) == w;
    assert Onward(w, [a]) == Next(w, a);
  }

  lemma {:induction false} OnwardFive(w: World, a: Event, b: Event, c: Event, d: Event, e: Event)
    ensures Onward(w, [a, b, c, d, e]) == Next(Next(Next(Next(Next(w, a), b), c), d), e)
  {
    hide Next;
    assert [a, b, c, d, e][..4] == [a, b, c, d] && [a, b, c, d][..3] == [a, b, c];
    assert [a, b, c][..2] == [a, b] && [a, b][..1] == [a] && [a][..0] == [];
    assert Onward(w, []) == w;
    assert Onward(w, [a]) == Next(w, a);
    assert Onward(w, [a, b]) == Next(Next(w, a), b);
    assert Onward(w, [a, b, c]) == Next(Next(Next(w, a), b), c);
    assert Onward(w, [a, b, c, d]) == Next(Next(Next(Next(w, a), b), c), d);
  }

  /** A new request takes a slot of the endpoint's current pool: arrival, view, `Reserve` up to its swap. */
  lemma {:induction false} TakeOne(w: World, e: Id, id: Id) returns (events: seq<Event>)
    requires e in w.table && w.table[e] < |w.pools| && w.pools[w.table[e]].owner == e && id !in w.requests
    requires StateOf(w.pools[w.table[e]]).counter < StateOf(w.pools[w.table[e]]).capacity
    ensures NoSwap(events)
    ensures var w', n := Onward(w, events), w.table[e];
      && w'.table == w.table && |w'.pools| == |w.pools|
      && w'.pools == w.pools[n := w'.pools[n]]
      && w'.pools[n].owner == e && w'.pools[n].capacity == w.pools[n].capacity
      && StateOf(w'.pools[n]).counter == StateOf(w.pools[n]).counter + 1
  {
    var n := w.table[e];
    var t := |StateOf(w.pools[n]).threads|;
    events := [Arrive(id), View(id, [n]), Try(id), Within(n, S.Load(t)), Within(n, S.Cas(t))];
    OnwardFive(w, Arrive(id), View(id, [n]), Try(id), Within(n, S.Load(t)), Within(n, S.Cas(t)));
    EnterOne(w, e, id);
    var w3 := Next(Next(Next(w, Arrive(id)), View(id, [n])), Try(id));
    hide Next, StateOf;
    TakeInside(w3, n, t);
    ThreeActs(w.pools[n], id);
  }

  lemma {:induction false} EnterOne(w: World, e: Id, id: Id)
    requires e in w.table && w.table[e] < |w.pools| && id !in w.requests
    ensures var n := w.table[e];
      var w3 := Next(Next(Next(w, Arrive(id)), View(id, [n])), Try(id));
      w3.pools == w.pools[n := Acted(w.pools[n], S.Begin(S.Reserving(id)))] && w3.table == w.table
  {
    hide StateOf;
    var n := w.table[e];
    assert n in w.table.Values;
    var w2 := Next(Next(w, Arrive(id)), View(id, [n]));
    assert w2 == w.(requests := w.requests[id := Arrived][id := Choosing([n])]);
  }

  lemma {:induction false} TakeInside(w: World, n: nat, t: nat)
    requires n < |w.pools|
    ensures var w' := Next(Next(w, Within(n, S.Load(t))), Within(n, S.Cas(t)));
      w'.table == w.table && w'.pools == w.pools[n := Acted(Acted(w.pools[n], S.Load(t)), S.Cas(t))]
  {
  }

  lemma {:induction false} ThreeActs(pool: Published, id: Id)
    requires StateOf(pool).counter < StateOf(pool).capacity
    ensures var t := |StateOf(pool).threads|;
      var pool1 := Acted(pool, S.Begin(S.Reserving(id)));
      StateOf(Acted(Acted(pool1, S.Load(t)), S.Cas(t))).counter == StateOf(pool).counter + 1
  {
    var t := |StateOf(pool).threads|;
    var pool1 := Acted(pool, S.Begin(S.Reserving(id)));
    ActedSteps(pool, S.Begin(S.Reserving(id)));
    ActedSteps(pool1, S.Load(t));
    ActedSteps(Acted(pool1, S.Load(t)), S.Cas(t));
    ReserveCounts(StateOf(pool), id);
    hide S.Step;
  }

  lemma {:induction false} ReserveCounts(s: S.State, id: Id)
    requires s.counter < s.capacity
    ensures var t := |s.threads|;
      S.Step(S.Step(S.Step(s, S.Begin(S.Reserving(id))), S.Load(t)), S.Cas(t)).counter == s.counter + 1
  {
    var s1 := S.Step(s, S.Begin(S.Reserving(id)));
    assert s1.threads == s.threads + [S.Reserving(id)];
  }

  lemma {:induction false} Fresh(ids: set<Id>) returns (longest: nat)
    ensures forall id :: id in ids ==> |id| <= longest
  {
    longest := 0;
    if ids != {} {
      var id :| id in ids;
      longest := Fresh(ids - {id});
      longest := if |id| > longest then |id| else longest;
    }
  }

  /** New requests can fill the endpoint's current pool. */
  lemma {:induction false} FillUp(w: World, e: Id, k: nat) returns (events: seq<Event>)
    requires Inv(w) && e in w.table && w.table[e] < |w.pools| && StateOf(w.pools[w.table[e]]).counter == 0
    requires k <= StateOf(w.pools[w.table[e]]).capacity
    ensures NoSwap(events)
    ensures var w', n := Onward(w, events), w.table[e];
      && Inv(w') && w'.table == w.table && |w'.pools| == |w.pools|
      && w'.pools == w.pools[n := w'.pools[n]]
      && w'.pools[n].owner == e && w'.pools[n].capacity == w.pools[n].capacity
      && StateOf(w'.pools[n]).counter == k
    decreases k
  {
    hide Onward, StateOf, Inv;
    if k == 0 {
      events := [];
      NowhereIsHere(w, e);
    } else {
      var before := FillUp(w, e, k - 1);
      var w1 := Onward(w, before);
      var longest := Fresh(w1.requests.Keys);
      SameCapacity(w.pools[w.table[e]], w1.pools[w.table[e]]);
      var more := TakeOne(w1, e, seq(longest + 1, _ => 'x'));
      events := before + more;
      OnwardAppend(w, before, more);
      OnwardKeepsInv(w1, more);
    }
  }

  lemma {:induction false} NowhereIsHere(w: World, e: Id)
    requires Inv(w) && e in w.table
    ensures Onward(w, []) == w && w.pools[w.table[e]].owner == e
    ensures w.pools == w.pools[w.table[e] := w.pools[w.table[e]]]
  {
  }

  lemma {:induction false} SameCapacity(p: Published, q: Published)
    requires p.capacity == q.capacity
    ensures StateOf(p).capacity == StateOf(q).capacity == if p.capacity < 1 then 1 else p.capacity
  {
    S.RunKeepsInv(p.capacity, p.history);
    S.RunKeepsInv(q.capacity, q.history);
  }

  /** A lease of the endpoint that is out when the table is swapped lets new requests push the endpoint past its
      capacity: they fill the new pool while the old lease lasts. */
  lemma {:induction false} OutstandingBreaksBound(w: World, endpoints: seq<(Id, int)>, e: Id)
    returns (after: seq<Event>)
    requires Inv(w) && Outstanding(w, e) != {}
    requires exists k :: 0 <= k < |endpoints| && endpoints[k].0 == e
    ensures NoSwap(after)
    ensures var w' := Next(w, Publish(endpoints));
      e in w'.table && w'.table[e] < |w'.pools| && |Outstanding(Onward(w', after), e)| > CapacityNow(w', e)
  {
    var w' := Next(w, Publish(endpoints));
    SwapOwnsEndpoint(w, endpoints, e);
    PublishKeepsInv(w, endpoints);
    NewIsEmpty(w'.pools[w'.table[e]]);
    WorldIsApart(w);
    hide Inv, StateOf, Outstanding;
    var lease :| lease in Outstanding(w, e);
    OutIsSomewhere(w.pools, e, lease);
    var p: nat :| p < |w.pools| && w.pools[p].owner == e && lease in Out(StateOf(w.pools[p]));
    assert w'.pools[p] == w.pools[p];
    hide Next, Out;
    after := OldLeaseBreaksBound(w', e, p);
  }

  lemma {:induction false} OldLeaseBreaksBound(w: World, e: Id, p: nat) returns (after: seq<Event>)
    requires Inv(w) && e in w.table && w.table[e] < |w.pools| && StateOf(w.pools[w.table[e]]).counter == 0
    requires Replaced(w, e, p) && StateOf(w.pools[p]).counter > 0
    ensures NoSwap(after) && |Outstanding(Onward(w, after), e)| > CapacityNow(w, e)
  {
    var n := w.table[e];
    SameCapacity(w.pools[n], w.pools[n]);
    after := FillUp(w, e, CapacityNow(w, e));
    WorldIsApart(w);
    var lease :| lease in Out(StateOf(w.pools[p]));
    var filled := Onward(w, after);
    assert filled.pools[p] == w.pools[p];
    hide Inv, Onward, Next, StateOf;
    TwoPoolsAddUp(filled, e, n, p, lease);
  }

  lemma {:induction false} TwoPoolsAddUp(w: World, e: Id, n: nat, p: nat, lease: Id)
    requires Inv(w) && n < |w.pools| && p < |w.pools| && n != p
    requires w.pools[n].owner == e && w.pools[p].owner == e && lease in Out(StateOf(w.pools[p]))
    ensures |Outstanding(w, e)| > StateOf(w.pools[n]).counter
  {
    WorldIsApart(w);
    hide StateOf, Inv;
    var full := Out(StateOf(w.pools[n]));
    assert lease !in full;
    forall id | id in full + {lease} ensures id in Outstanding(w, e) {
      OutIsSomewhere(w.pools, e, id);
    }
    SubsetIsSmaller(full + {lease}, Outstanding(w, e));
  }

  // ---------------------------------------------------------------- requests on their way to an old pool

  /** The pool is the next the request asks, or the request is inside its `Reserve`. */
  predicate Enters(w: World, id: Id, p: nat)
    requires id in w.requests
  {
    var ph := w.requests[id];
    || (ph.Choosing? && ph.candidates != [] && ph.candidates[0] == p)
    || (ph.Trying? && ph.pool == p && Pending(ThreadOf(w, p, ph.tid)))
  }

  /** The request asks the pool only if another refuses first. */
  predicate Queues(w: World, id: Id, p: nat)
    requires id in w.requests
  {
    var ph := w.requests[id];
    (ph.Choosing? && ph.candidates != [] && p in ph.candidates[1..]) || (ph.Trying? && p in ph.rest)
  }

  lemma {:induction false} ReachesIsEntersOrQueues(w: World, id: Id, p: nat)
    requires id in w.requests
    ensures Reaches(w, id, p) <==> Enters(w, id, p) || Queues(w, id, p)
  {
    hide ThreadOf;
    if w.requests[id].Choosing? && w.requests[id].candidates != [] {
      var candidates := w.requests[id].candidates;
      assert candidates == [candidates[0]] + candidates[1..];
    }
  }

  /** A thread before its load takes a slot if there is one. */
  lemma {:induction false} SwapsNow(w: World, p: nat, tid: nat) returns (events: seq<Event>)
    requires p < |w.pools| && ThreadOf(w, p, tid).Reserving?
    requires StateOf(w.pools[p]).counter < StateOf(w.pools[p]).capacity
    ensures NoSwap(events) && GainsOne(w, Onward(w, events), p)
  {
    events := [Within(p, S.Load(tid)), Within(p, S.Cas(tid))];
    OnwardTwo(w, events[0], events[1]);
    ActedSteps(w.pools[p], S.Load(tid));
    ActedSteps(Acted(w.pools[p], S.Load(tid)), S.Cas(tid));
    hide StateOf;
  }

  /** Only pool `p` has changed, by one more slot counted. */
  ghost predicate GainsOne(w: World, w': World, p: nat) {
    && p < |w.pools| && |w'.pools| == |w.pools| && w'.table == w.table && w'.pools == w.pools[p := w'.pools[p]]
    && w'.pools[p].owner == w.pools[p].owner && StateOf(w'.pools[p]).counter == StateOf(w.pools[p]).counter + 1
  }

  /** A request that enters an empty pool can take a slot of it. */
  lemma {:induction false} EnteringTakes(w: World, id: Id, p: nat) returns (events: seq<Event>)
    requires Inv(w) && id in w.requests && p < |w.pools| && Enters(w, id, p) && StateOf(w.pools[p]).counter == 0
    ensures NoSwap(events) && GainsOne(w, Onward(w, events), p)
  {
    S.RunKeepsInv(w.pools[p].capacity, w.pools[p].history);
    hide Inv;
    if w.requests[id].Choosing? {
      events := TryTakes(w, id, p);
    } else {
      events := InsideTakes(w, p, w.requests[id].tid);
    }
  }

  lemma {:induction false} TryTakes(w: World, id: Id, p: nat) returns (events: seq<Event>)
    requires id in w.requests && w.requests[id].Choosing? && w.requests[id].candidates != []
    requires w.requests[id].candidates[0] == p < |w.pools|
    requires StateOf(w.pools[p]).counter < StateOf(w.pools[p]).capacity
    ensures NoSwap(events) && GainsOne(w, Onward(w, events), p)
  {
    var w1 := Next(w, Try(id));
    TryBegins(w, id, p);
    hide Next, StateOf;
    var rest := SwapsNow(w1, p, |StateOf(w.pools[p]).threads|);
    events := [Try(id)] + rest;
    OnwardOneMore(w, Try(id), rest);
  }

  lemma {:induction false} TryBegins(w: World, id: Id, p: nat)
    requires id in w.requests && w.requests[id].Choosing? && w.requests[id].candidates != []
    requires w.requests[id].candidates[0] == p < |w.pools|
    ensures var w1 := Next(w, Try(id));
      && w1.pools == w.pools[p := Acted(w.pools[p], S.Begin(S.Reserving(id)))] && w1.table == w.table
      && StateOf(w1.pools[p]).counter == StateOf(w.pools[p]).counter
      && StateOf(w1.pools[p]).capacity == StateOf(w.pools[p]).capacity
      && ThreadOf(w1, p, |StateOf(w.pools[p]).threads|).Reserving?
  {
    ActedSteps(w.pools[p], S.Begin(S.Reserving(id)));
    hide StateOf;
  }

  lemma {:induction false} InsideTakes(w: World, p: nat, t: nat) returns (events: seq<Event>)
    requires p < |w.pools| && Pending(ThreadOf(w, p, t))
    requires StateOf(w.pools[p]).counter == 0 < StateOf(w.pools[p]).capacity
    ensures NoSwap(events) && GainsOne(w, Onward(w, events), p)
  {
    EmptyIsNotCounted(w, p, t);
    var cas := Within(p, S.Cas(t));
    if ThreadOf(w, p, t).Reserving? {
      events := SwapsNow(w, p, t);
    } else {
      SwapOrRetry(w, p, t);
      hide Next, StateOf;
      if ThreadOf(w, p, t).seen == 0 {
        events := [cas];
        OnwardOneMore(w, cas, []);
        assert [cas] + [] == [cas] && Onward(Next(w, cas), []) == Next(w, cas);
      } else {
        var rest := SwapsNow(Next(w, cas), p, t);
        events := [cas] + rest;
        OnwardOneMore(w, cas, rest);
      }
    }
  }

  /** The swap of a loaded thread takes a slot, or sends the thread back to its load. */
  lemma {:induction false} SwapOrRetry(w: World, p: nat, t: nat)
    requires p < |w.pools| && ThreadOf(w, p, t).Loaded? && StateOf(w.pools[p]).counter == 0
    ensures var w1 := Next(w, Within(p, S.Cas(t)));
      && |w1.pools| == |w.pools| && w1.table == w.table && w1.pools == w.pools[p := w1.pools[p]]
      && w1.pools[p].owner == w.pools[p].owner
      && StateOf(w1.pools[p]).capacity == StateOf(w.pools[p]).capacity
      && (if ThreadOf(w, p, t).seen == 0 then StateOf(w1.pools[p]).counter == 1
          else ThreadOf(w1, p, t).Reserving? && StateOf(w1.pools[p]).counter == 0)
  {
    ActedSteps(w.pools[p], S.Cas(t));
    hide StateOf;
  }

  lemma {:induction false} OnwardOneMore(w: World, event: Event, rest: seq<Event>)
    ensures Onward(w, [event] + rest) == Onward(Next(w, event), rest)
    ensures NoSwap(rest) && !event.Publish? ==> NoSwap([event] + rest)
  {
    hide Next;
    OnwardAppend(w, [event], rest);
    assert [event][..0] == [] && Onward(w, []) == w;
  }

  lemma {:induction false} EmptyIsNotCounted(w: World, p: nat, tid: nat)
    requires p < |w.pools| && StateOf(w.pools[p]).counter == 0
    ensures !ThreadOf(w, p, tid).Counted?
  {
    var s := StateOf(w.pools[p]);
    S.RunKeepsInv(w.pools[p].capacity, w.pools[p].history);
    hide StateOf;
    if tid < |s.threads| {
      TransitAtLeast(s.threads, tid);
    }
  }

  lemma {:induction false} TransitAtLeast(threads: seq<S.Thread>, i: nat)
    requires i < |threads|
    ensures S.InTransit(threads) >= |S.Held(threads[i])|
    decreases |threads|
  {
    if i < |threads| - 1 {
      TransitAtLeast(threads[..|threads| - 1], i);
    }
  }

  /** A request about to enter an old pool of the endpoint when the table is swapped can take a slot there after the
      swap, and new requests then push the endpoint past its capacity. */
  lemma {:induction false} EnteringBreaksBound(w: World, endpoints: seq<(Id, int)>, e: Id, id: Id, p: nat)
    returns (after: seq<Event>)
    requires Inv(w) && Outstanding(w, e) == {}
    requires exists k :: 0 <= k < |endpoints| && endpoints[k].0 == e
    requires id in w.requests && p < |w.pools| && w.pools[p].owner == e && Enters(w, id, p)
    ensures NoSwap(after)
    ensures var w' := Next(w, Publish(endpoints));
      e in w'.table && w'.table[e] < |w'.pools| && |Outstanding(Onward(w', after), e)| > CapacityNow(w', e)
  {
    var w' := Next(w, Publish(endpoints));
    SwapOwnsEndpoint(w, endpoints, e);
    PublishKeepsInv(w, endpoints);
    NothingOutIsEmpty(w, e, p);
    assert w'.pools[p] == w.pools[p];
    NewIsEmpty(w'.pools[w'.table[e]]);
    hide Inv, Next, StateOf;
    after := EnteredBreaksBound(w', e, id, p);
  }

  lemma {:induction false} EnteredBreaksBound(w: World, e: Id, id: Id, p: nat) returns (after: seq<Event>)
    requires Inv(w) && e in w.table && w.table[e] < |w.pools| && StateOf(w.pools[w.table[e]]).counter == 0
    requires Replaced(w, e, p) && id in w.requests && Enters(w, id, p) && StateOf(w.pools[p]).counter == 0
    ensures NoSwap(after) && |Outstanding(Onward(w, after), e)| > CapacityNow(w, e)
  {
    hide Inv, Next, StateOf, Onward;
    var first := EnteringTakes(w, id, p);
    var w1 := Onward(w, first);
    OnwardKeepsInv(w, first);
    OnwardKeepsTable(w, first);
    var rest := OldLeaseBreaksBound(w1, e, p);
    after := first + rest;
    OnwardAppend(w, first, rest);
  }

  lemma {:induction false} OnwardKeepsTable(w: World, events: seq<Event>)
    requires NoSwap(events)
    ensures Onward(w, events).table == w.table && |Onward(w, events).pools| == |w.pools|
    ensures forall p :: 0 <= p < |w.pools| ==> Onward(w, events).pools[p].capacity == w.pools[p].capacity
  {
    hide Next;
    if |events| > 0 {
      OnwardKeepsTable(w, events[..|events| - 1]);
      NextKeepsTable(Onward(w, events[..|events| - 1]), events[|events| - 1]);
    }
  }

  lemma {:induction false} NothingOutIsEmpty(w: World, e: Id, p: nat)
    requires Inv(w) && Outstanding(w, e) == {} && p < |w.pools| && w.pools[p].owner == e
    ensures StateOf(w.pools[p]).counter == 0
  {
    WorldIsApart(w);
    if StateOf(w.pools[p]).counter > 0 {
      CountedIsOutstanding(w, e, p);
    }
  }

  /** No continuation without a swap takes the endpoint past its capacity. */
  ghost predicate BoundKept(w: World, e: Id)
    requires e in w.table && w.table[e] < |w.pools|
  {
    forall after :: NoSwap(after) ==> |Outstanding(Onward(w, after), e)| <= CapacityNow(w, e)
  }

  /** When a swap keeps an endpoint within its capacity, whatever happens until the next one.  It does if at that moment
      no lease of the endpoint is out and no request can still come to one of its pools; and if it does, no lease is
      out and no request is entering one.  So it does exactly then, but for requests that would come to such a pool
      only after another pool has refused them: with none of these, this is an if-and-only-if. */
  lemma {:induction false} SwapKeepsBoundExactlyWhenDrained(before: seq<Event>, endpoints: seq<(Id, int)>, e: Id)
    requires exists k :: 0 <= k < |endpoints| && endpoints[k].0 == e
    ensures var w, w' := Live(before), Next(Live(before), Publish(endpoints));
      && e in w'.table && w'.table[e] < |w'.pools|
      && (Outstanding(w, e) == {} && NobodyReaches(w, e) ==> BoundKept(w', e))
      && (BoundKept(w', e) ==> Outstanding(w, e) == {} && NobodyEnters(w, e))
      && (NobodyQueues(w, e) ==> (Outstanding(w, e) == {} && NobodyEnters(w, e) <==> BoundKept(w', e)))
  {
    var w := Live(before);
    var w' := Next(w, Publish(endpoints));
    LiveIsOk(before);
    SwapOwnsEndpoint(w, endpoints, e);
    PublishKeepsInv(w, endpoints);
    hide Inv, Next, Enters, Queues, Reaches;
    if Outstanding(w, e) != {} {
      var after := OutstandingBreaksBound(w, endpoints, e);
    } else if !NobodyEnters(w, e) {
      var id, p: nat :| id in w.requests && p < |w.pools| && w.pools[p].owner == e && Enters(w, id, p);
      var after := EnteringBreaksBound(w, endpoints, e, id, p);
    }
    if Outstanding(w, e) == {} && NobodyReaches(w, e) {
      SwapShuts(w, endpoints, e);
      ShutKeepsBound(w', e);
    }
    NobodyReachesIsBoth(w, e);
  }

  lemma {:induction false} ShutKeepsBound(w: World, e: Id)
    requires Inv(w) && Shut(w, e)
    ensures BoundKept(w, e)
  {
    hide Inv;
    forall after | NoSwap(after) ensures |Outstanding(Onward(w, after), e)| <= CapacityNow(w, e) {
      OnwardKeepsShut(w, after, e);
      OnwardKeepsInv(w, after);
      ShutIsBounded(Onward(w, after), e);
    }
  }

  lemma {:induction false} NobodyReachesIsBoth(w: World, e: Id)
    ensures NobodyReaches(w, e) <==> NobodyEnters(w, e) && NobodyQueues(w, e)
  {
    hide Enters, Queues, Reaches;
    forall id, p: nat | id in w.requests ensures Reaches(w, id, p) <==> Enters(w, id, p) || Queues(w, id, p) {
      ReachesIsEntersOrQueues(w, id, p);
    }
  }

  ghost predicate NobodyEnters(w: World, e: Id) {
    forall id, p: nat :: id in w.requests && p < |w.pools| && w.pools[p].owner == e ==> !Enters(w, id, p)
  }

  ghost predicate NobodyQueues(w: World, e: Id) {
    forall id, p: nat :: id in w.requests && p < |w.pools| && w.pools[p].owner == e ==> !Queues(w, id, p)
  }

  /** Every table of the run has just this endpoint. */
  predicate AlwaysPublishes(events: seq<Event>, endpoints: seq<(Id, int)>) {
    forall i :: 0 <= i < |events| && events[i].Publish? ==> events[i].endpoints == endpoints
  }

  /** A rescan does not carry the leases in flight over: an endpoint of any capacity, published twice with it, can
      have more leases outstanding than that. */
  lemma {:induction false} RescanDoesNotCarryOver(e: Id, capacity: int)
    ensures exists events: seq<Event> ::
      AlwaysPublishes(events, [(e, capacity)])
      && |Outstanding(Live(events), e)| > (if capacity < 1 then 1 else capacity)
  {
    var endpoints := [(e, capacity)];
    assert endpoints[0].0 == e;
    var before := OneLeaseOut(e, capacity);
    LiveIsOk(before);
    OneEndpoint(Live(before), e, capacity);
    var after := OutstandingBreaksBound(Live(before), endpoints, e);
    hide Next, Inv, Outstanding, AlwaysPublishes, NoSwap, StateOf, Live;
    SwapBetween(before, Publish(endpoints), after);
    PublishesAgain(before, endpoints, after);
  }

  lemma {:induction false} PublishesAgain(before: seq<Event>, endpoints: seq<(Id, int)>, after: seq<Event>)
    requires AlwaysPublishes(before, endpoints) && NoSwap(after)
    ensures AlwaysPublishes(before + [Publish(endpoints)] + after, endpoints)
  {
  }

  lemma {:induction false} SwapBetween(before: seq<Event>, event: Event, after: seq<Event>)
    ensures Live(before + [event] + after) == Onward(Next(Live(before), event), after)
  {
    hide Next;
    OnwardAppend(World([], map[], map[], []), before + [event], after);
    assert (before + [event])[..|before|] == before;
  }

  lemma {:induction false} OneEndpoint(w: World, e: Id, capacity: int)
    ensures var w' := Next(w, Publish([(e, capacity)]));
      && e in w'.table && w'.table[e] == |w.pools| && |w'.pools| == |w.pools| + 1
      && w'.pools[|w.pools|] == Published(e, capacity, [])
  {
    assert [(e, capacity)][0].0 == e;
  }

  lemma {:induction false} OneLeaseOut(e: Id, capacity: int) returns (events: seq<Event>)
    ensures AlwaysPublishes(events, [(e, capacity)]) && Outstanding(Live(events), e) != {}
  {
    var publish := Publish([(e, capacity)]);
    LiveIsOk([publish]);
    SwapBetween([], publish, []);
    assert [] + [publish] + [] == [publish];
    var w := Live([publish]);
    OneEndpoint(Live([]), e, capacity);
    assert StateOf(w.pools[0]) == S.Init(capacity);
    var first := FillUp(w, e, 1);
    OnwardAppend(World([], map[], map[], []), [publish], first);
    events := [publish] + first;
    CountedIsOutstanding(Onward(w, first), e, 0);
  }

  lemma {:induction false} CountedIsOutstanding(w: World, e: Id, p: nat)
    requires Inv(w) && p < |w.pools| && w.pools[p].owner == e && StateOf(w.pools[p]).counter > 0
    ensures Outstanding(w, e) != {}
  {
    WorldIsApart(w);
    var id :| id in Out(StateOf(w.pools[p]));
    OutIsSomewhere(w.pools, e, id);
  }
}
