/** What holds over every run of requests, table swaps and watchdog passes of `Rcu`: whose slot is whose, that pools
    drain, and how many leases are outstanding for an endpoint. */
module RcuRuns {
  import S = PoolSteps
  import opened Rcu

  // ---------------------------------------------------------------- every pool, whenever it was published

  /** Every pool ever published stays within its own capacity, and its counter is its leases and the slots in the
      hands of its threads: nothing is lost. */
  lemma {:induction false} EveryPoolConserves(events: seq<Event>, p: nat)
    requires p < |Live(events).pools|
    ensures var pool := Live(events).pools[p];
      var s := StateOf(pool);
      && 0 <= s.counter <= s.capacity == (if pool.capacity < 1 then 1 else pool.capacity)
      && s.counter == |s.leases| + S.InTransit(s.threads)
  {
    LiveIsOk(events);
    var pool := Live(events).pools[p];
    assert PoolOk(Live(events).requests, p, pool);
    S.ExactlyOnce(pool.capacity, pool.history, "");
    S.RunKeepsInv(pool.capacity, pool.history);
    S.Conservation(pool.capacity, pool.history);
  }

  /** A request reserves in one pool at most, across all tables. */
  lemma {:induction false} OnePoolEach(events: seq<Event>, id: Id, p: nat, q: nat)
    requires p < |Live(events).pools| && StateOf(Live(events).pools[p]).taken[id] > 0
    requires q < |Live(events).pools| && StateOf(Live(events).pools[q]).taken[id] > 0
    ensures p == q
  {
    LiveIsOk(events);
    var w := Live(events);
    assert PoolOk(w.requests, p, w.pools[p]) && PoolOk(w.requests, q, w.pools[q]);
  }

  /** A release runs in the very pool that its request reserved, even when the table has been swapped since. */
  lemma {:induction false} ReleasesWhatItReserved(events: seq<Event>, p: nat, tid: nat, id: Id)
    requires p < |Live(events).pools| && tid < |StateOf(Live(events).pools[p]).threads|
    requires StateOf(Live(events).pools[p]).threads[tid] == S.Releasing(id)
    ensures var w := Live(events);
      && id in w.requests && w.requests[id] == Leaving(p, tid)
      && (forall q :: 0 <= q < |w.pools| ==> StateOf(w.pools[q]).taken[id] == if q == p then 1 else 0)
  {
    LiveIsOk(events);
    var w := Live(events);
    assert PoolOk(w.requests, p, w.pools[p]);
    assert PhaseOk(w.pools, id, w.requests[id]);
    forall q | 0 <= q < |w.pools| && q != p ensures StateOf(w.pools[q]).taken[id] == 0 {
      assert PoolOk(w.requests, q, w.pools[q]);
    }
  }

  /** What a request once holds it holds in that pool until it has released it there. */
  lemma {:induction false} StaysWithItsPool(events: seq<Event>, n: nat, id: Id, p: nat)
    requires n <= |events| && id in Live(events[..n]).requests && Live(events[..n]).requests[id] == Holding(p)
    ensures id in Live(events).requests && AtPool(Live(events).requests[id], p)
  {
    LiveIsOk(events[..n]);
    assert PhaseOk(Live(events[..n]).pools, id, Holding(p));
    TakenStays(events, n, id, p);
    LiveIsOk(events);
    assert PoolOk(Live(events).requests, p, Live(events).pools[p]);
  }

  lemma {:induction false} TakenStays(events: seq<Event>, n: nat, id: Id, p: nat)
    requires n <= |events| && p < |Live(events[..n]).pools| && StateOf(Live(events[..n]).pools[p]).taken[id] > 0
    ensures p < |Live(events).pools| && StateOf(Live(events).pools[p]).taken[id] > 0
    decreases |events|
  {
    hide Next, StateOf;
    if n == |events| {
      assert events[..n] == events;
    } else {
      var before := events[..|events| - 1];
      assert before[..n] == events[..n];
      TakenStays(before, n, id, p);
      NextTakes(Live(before), events[|events| - 1], id, p);
    }
  }

  lemma {:induction false} NextTakes(w: World, event: Event, id: Id, p: nat)
    requires p < |w.pools|
    ensures p < |Next(w, event).pools| && StateOf(w.pools[p]).taken[id] <= StateOf(Next(w, event).pools[p]).taken[id]
  {
    var a := PoolActs(w, event, p);
    if Next(w, event).pools[p] != w.pools[p] {
      ActedSteps(w.pools[p], a);
      S.OnlyGrow(StateOf(w.pools[p]), a, id);
    }
  }

  /** The request may yet take a slot of the pool: it has the pool ahead of it, or is inside its `Reserve` and neither
      granted nor refused. */
  predicate Reaches(w: World, id: Id, p: nat)
    requires id in w.requests
  {
    var ph := w.requests[id];
    || (ph.Choosing? && p in ph.candidates)
    || (ph.Trying? && (p in ph.rest || (ph.pool == p && Pending(ThreadOf(w, p, ph.tid)))))
  }

  /** An event does one operation on a pool, or none. */
  lemma {:induction false} PoolActs(w: World, event: Event, p: nat) returns (a: S.Action)
    requires p < |w.pools|
    ensures p < |Next(w, event).pools|
    ensures Next(w, event).pools[p] == w.pools[p] || Next(w, event).pools[p] == Acted(w.pools[p], a)
    ensures S.IsReserve(a) ==>
      event.Try? && event.id in w.requests && Reaches(w, event.id, p)
    ensures Next(w, event).pools[p] != w.pools[p] && !a.Begin? ==> event == Within(p, a)
    ensures a.Begin? && a.call.Reaping? ==> event.Reap? && a.call.hardTimeout == event.hardTimeout
  {
    hide StateOf;
    a := match event
      case Try(id) => S.Begin(S.Reserving(id))
      case Leave(id) => S.Begin(S.Releasing(id))
      case Touch(id, now) => S.Begin(S.Touching(id, now))
      case Within(_, inner) => inner
      case Reap(_, _, now, hardTimeout) => S.Begin(S.Reaping(now, hardTimeout))
      case _ => S.Load(0);
    if event.Try? && Next(w, event).pools[p] == w.pools[p] {
      a := S.Load(0);
    }
    if event.Within? && event.action.Begin? {
      a := S.Load(0);
    }
  }

  predicate Engaged(ph: Phase, p: nat) {
    AtPool(ph, p) && !ph.Left?
  }

  /** A pool whose requests have all finished, with no thread at work, is empty: no lease, counter zero.  This holds
      for the pools of tables long replaced as for the current ones. */
  lemma {:induction false} PoolsDrain(events: seq<Event>, p: nat)
    requires p < |Live(events).pools| && S.Quiescent(StateOf(Live(events).pools[p]))
    requires forall id :: id in Live(events).requests ==> !Engaged(Live(events).requests[id], p)
    ensures StateOf(Live(events).pools[p]).leases == map[] && StateOf(Live(events).pools[p]).counter == 0
  {
    LiveIsOk(events);
    var w := Live(events);
    var pool := w.pools[p];
    assert PoolOk(w.requests, p, pool);
    assert forall id :: id !in StateOf(pool).leases;
    S.Drained(pool.capacity, pool.history);
    S.RunLosesNothing(pool.capacity, pool.history);
  }

  // ---------------------------------------------------------------- leases outstanding for an endpoint

  /** The lease ids that hold a slot: counted, and not given back. */
  function Out(s: S.State): set<Id> {
    set id | id in s.taken && s.taken[id] > s.returned[id]
  }

  function OutstandingIn(pools: seq<Published>, e: Id): set<Id> {
    if |pools| == 0 then {}
    else
      var n := |pools| - 1;
      OutstandingIn(pools[..n], e) + if pools[n].owner == e then Out(StateOf(pools[n])) else {}
  }

  /** The leases outstanding for an endpoint id, over all pools ever published for it. */
  function Outstanding(w: World, e: Id): set<Id> {
    OutstandingIn(w.pools, e)
  }

  function Counters(pools: seq<Published>, e: Id): int {
    if |pools| == 0 then 0
    else
      var n := |pools| - 1;
      Counters(pools[..n], e) + if pools[n].owner == e then StateOf(pools[n]).counter else 0
  }

  /** The counter of a pool is the number of ids out. */
  lemma {:induction false} CounterCountsIds(capacity: int, history: seq<S.Action>)
    requires S.DistinctIds(history)
    ensures var s := S.Run(S.Init(capacity), history); |Out(s)| == s.counter
    decreases |history|
  {
    if |history| > 0 {
      var before, a := history[..|history| - 1], history[|history| - 1];
      assert before + [a] == history;
      S.CalledGrows(before, a);
      CounterCountsIds(capacity, before);
      var s := S.Run(S.Init(capacity), before);
      forall id ensures s.returned[id] <= s.taken[id] <= 1 {
        S.ExactlyOnce(capacity, before, id);
      }
      forall id ensures S.Step(s, a).returned[id] <= S.Step(s, a).taken[id] <= 1 {
        S.ExactlyOnce(capacity, history, id);
      }
      hide S.Run;
      OutSteps(s, a);
    }
  }

  lemma {:induction false} OutSteps(s: S.State, a: S.Action)
    requires |Out(s)| == s.counter
    requires forall id :: s.returned[id] <= s.taken[id] <= 1
    requires forall id :: S.Step(s, a).returned[id] <= S.Step(s, a).taken[id] <= 1
    ensures |Out(S.Step(s, a))| == S.Step(s, a).counter
  {
    var s' := S.Step(s, a);
    var id := TokensMove(s, a);
    hide S.Step;
    if s'.counter == s.counter + 1 {
      assert s'.taken[id] == s.taken[id] + 1;
      assert Out(s') == Out(s) + {id};
    } else if s'.counter == s.counter - 1 {
      assert s'.returned[id] == s.returned[id] + 1;
      assert Out(s') == Out(s) - {id};
    }
  }

  /** The counter and the record of increments and decrements change together, for one id. */
  lemma {:induction false} TokensMove(s: S.State, a: S.Action) returns (id: Id)
    ensures var s' := S.Step(s, a);
      || (s'.counter == s.counter && s'.taken == s.taken && s'.returned == s.returned)
      || (s'.counter == s.counter + 1 && s'.taken == s.taken + multiset{id} && s'.returned == s.returned
            && a.Cas? && a.tid < |s.threads| && s.threads[a.tid] == S.Loaded(id, s.counter))
      || (s'.counter == s.counter - 1 && s'.taken == s.taken && s'.returned == s.returned + multiset{id})
  {
    id := if a.Cas? && a.tid < |s.threads| && s.threads[a.tid].Loaded? then s.threads[a.tid].id
          else if a.Decrement? then a.id else "";
  }

  ghost predicate Apart(pools: seq<Published>) {
    forall p, q :: 0 <= p < q < |pools| ==> Out(StateOf(pools[p])) !! Out(StateOf(pools[q]))
  }

  lemma {:induction false} OutIsSomewhere(pools: seq<Published>, e: Id, id: Id)
    ensures id in OutstandingIn(pools, e)
      <==> exists p :: 0 <= p < |pools| && pools[p].owner == e && id in Out(StateOf(pools[p]))
  {
    hide StateOf, Out;
    if |pools| > 0 {
      var n := |pools| - 1;
      OutIsSomewhere(pools[..n], e, id);
      assert forall p :: 0 <= p < n ==> pools[..n][p] == pools[p];
    }
  }

  lemma {:induction false} SumOfCounters(pools: seq<Published>, e: Id)
    requires Apart(pools) && forall p :: 0 <= p < |pools| ==> |Out(StateOf(pools[p]))| == StateOf(pools[p]).counter
    ensures |OutstandingIn(pools, e)| == Counters(pools, e)
  {
    hide StateOf, Out;
    if |pools| > 0 {
      var n := |pools| - 1;
      assert forall p :: 0 <= p < n ==> pools[..n][p] == pools[p];
      SumOfCounters(pools[..n], e);
      forall id | id in OutstandingIn(pools[..n], e) ensures id !in Out(StateOf(pools[n])) {
        OutIsSomewhere(pools[..n], e, id);
      }
      assert OutstandingIn(pools[..n], e) !! Out(StateOf(pools[n]));
    }
  }

  lemma {:induction false} WorldIsApart(w: World)
    requires Inv(w)
    ensures Apart(w.pools)
    ensures forall p :: 0 <= p < |w.pools| ==> |Out(StateOf(w.pools[p]))| == StateOf(w.pools[p]).counter
  {
    forall p | 0 <= p < |w.pools| ensures |Out(StateOf(w.pools[p]))| == StateOf(w.pools[p]).counter {
      assert PoolOk(w.requests, p, w.pools[p]);
      CounterCountsIds(w.pools[p].capacity, w.pools[p].history);
    }
    forall p, q | 0 <= p < q < |w.pools| ensures Out(StateOf(w.pools[p])) !! Out(StateOf(w.pools[q])) {
      assert PoolOk(w.requests, p, w.pools[p]) && PoolOk(w.requests, q, w.pools[q]);
      hide StateOf;
    }
  }

  /** The leases outstanding for an endpoint are as many as the counters of all its pools say together. */
  lemma {:induction false} OutstandingIsTheSum(events: seq<Event>, e: Id)
    ensures |Outstanding(Live(events), e)| == Counters(Live(events).pools, e)
  {
    LiveIsOk(events);
    WorldIsApart(Live(events));
    SumOfCounters(Live(events).pools, e);
  }
}
