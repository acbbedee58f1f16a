/** What the lease watchdog does to requests that still run: when a pool may come to serve more of them than it has
    slots, and when never. */
module RcuReaps {
  import S = PoolSteps
  import opened Rcu
  import opened RcuRuns
  import opened RcuSwaps

  /** The requests that hold a pool. */
  function Holders(w: World, p: nat): set<Id> {
    set id | id in w.requests && w.requests[id] == Holding(p)
  }

  /** The request holds the pool, or its `Reserve` there is done and it is about to see that. */
  predicate Runs(w: World, id: Id, p: nat) {
    && id in w.requests
    && (w.requests[id] == Holding(p)
        || (w.requests[id].Trying? && w.requests[id].pool == p && ThreadOf(w, p, w.requests[id].tid).Reserved?))
  }

  /** No request that runs on the pool has lost its lease. */
  ghost predicate RunnersLeased(w: World, p: nat) {
    p < |w.pools| ==> forall id :: Runs(w, id, p) ==> id in StateOf(w.pools[p]).leases
  }

  /** The section of `ReapLeases` under the mutex is about to evict a request that still runs. */
  predicate ReapsRunner(w: World, event: Event) {
    && event.Within? && event.action.Reap? && ThreadOf(w, event.pool, event.action.tid).Reaping?
    && event.pool < |w.pools|
    && var t := ThreadOf(w, event.pool, event.action.tid);
    exists id :: id in S.Stale(StateOf(w.pools[event.pool]).leases, t.now, t.hardTimeout) && Runs(w, id, event.pool)
  }

  /** No eviction of the run hits a request that still runs at that moment. */
  ghost predicate Spares(w: World, events: seq<Event>) {
    forall n :: 0 <= n < |events| ==> !ReapsRunner(Onward(w, events[..n]), events[n])
  }

  function PoolCapacity(w: World, p: nat): int
    requires p < |w.pools|
  {
    if w.pools[p].capacity < 1 then 1 else w.pools[p].capacity
  }

  // ---------------------------------------------------------------- runners keep their leases

  lemma {:induction false} LeaseStays(s: S.State, a: S.Action, id: Id)
    requires id in s.leases
    requires a.Remove? && a.tid < |s.threads| ==> s.threads[a.tid] != S.Releasing(id)
    requires a.Reap? && a.tid < |s.threads| && s.threads[a.tid].Reaping? ==>
      id !in S.Stale(s.leases, s.threads[a.tid].now, s.threads[a.tid].hardTimeout)
    ensures id in S.Step(s, a).leases
  {
  }

  /** A thread whose `Reserve` is done was done before, or has just put its lease in the map. */
  lemma {:induction false} ReservedWas(s: S.State, a: S.Action, tid: nat)
    requires tid < |s.threads| && S.Step(s, a).threads[tid].Reserved?
    ensures s.threads[tid] == S.Step(s, a).threads[tid] || S.Step(s, a).threads[tid].id in S.Step(s, a).leases
  {
  }

  lemma {:induction false} NextKeepsLeased(w: World, event: Event, p: nat)
    requires Inv(w) && RunnersLeased(w, p) && !ReapsRunner(w, event)
    ensures RunnersLeased(Next(w, event), p)
  {
    hide Inv, RunnersLeased, ReapsRunner, Runs, StateOf, Next;
    if p < |w.pools| {
      var a := PoolActs(w, event, p);
      forall id | Runs(Next(w, event), id, p) ensures id in StateOf(Next(w, event).pools[p]).leases {
        RunnerKeepsLease(w, event, p, id);
      }
      LeasedFrom(w, event, p);
    } else {
      NewPoolHasNoRunner(w, event, p);
    }
  }

  lemma {:induction false} LeasedFrom(w: World, event: Event, p: nat)
    requires p < |Next(w, event).pools|
    requires forall id :: Runs(Next(w, event), id, p) ==> id in StateOf(Next(w, event).pools[p]).leases
    ensures RunnersLeased(Next(w, event), p)
  {
  }

  lemma {:induction false} NewPoolHasNoRunner(w: World, event: Event, p: nat)
    requires Inv(w) && p >= |w.pools|
    ensures RunnersLeased(Next(w, event), p)
  {
    NextKeepsInv(w, event);
    if event.Publish? {
      forall id | id in w.requests ensures !AtPool(w.requests[id], p) {
        assert PhaseOk(w.pools, id, w.requests[id]);
      }
      hide StateOf, Inv;
    } else {
      NextKeepsTable(w, event);
    }
  }

  lemma {:induction false} RunnerKeepsLease(w: World, event: Event, p: nat, id: Id)
    requires Inv(w) && RunnersLeased(w, p) && !ReapsRunner(w, event) && p < |w.pools|
    requires Runs(Next(w, event), id, p)
    ensures p < |Next(w, event).pools| && id in StateOf(Next(w, event).pools[p]).leases
  {
    var a := PoolActs(w, event, p);
    WasRunning(w, event, p, id);
    if Runs(w, id, p) && Next(w, event).pools[p] != w.pools[p] {
      ActedSteps(w.pools[p], a);
      assert ReleasingOk(w.requests, p, StateOf(w.pools[p])) by {
        assert PoolOk(w.requests, p, w.pools[p]);
      }
      hide Inv, Next, StateOf;
      LeaseStays(StateOf(w.pools[p]), a, id);
    }
  }

  /** A request that runs now ran before, or its lease has just been put there. */
  lemma {:induction false} WasRunning(w: World, event: Event, p: nat, id: Id)
    requires Inv(w) && p < |w.pools| && Runs(Next(w, event), id, p)
    ensures p < |Next(w, event).pools|
    ensures Runs(w, id, p) || id in StateOf(Next(w, event).pools[p]).leases
  {
    var w' := Next(w, event);
    var a := PoolActs(w, event, p);
    NextKeepsInv(w, event);
    assert PhaseOk(w'.pools, id, w'.requests[id]);
    assert id in w.requests ==> PhaseOk(w.pools, id, w.requests[id]);
    hide Inv;
    ActedSteps(w.pools[p], a);
    if id in w.requests && w'.requests[id] == w.requests[id] {
      hide Next, StateOf;
      if w.requests[id].Trying? && w'.pools[p] != w.pools[p] {
        ReservedWas(StateOf(w.pools[p]), a, w.requests[id].tid);
      }
    } else {
      SettlesRunner(w, event, p, id);
    }
  }

  lemma {:induction false} SettlesRunner(w: World, event: Event, p: nat, id: Id)
    requires p < |w.pools| && Runs(Next(w, event), id, p)
    requires id in w.requests ==> Next(w, event).requests[id] != w.requests[id]
    ensures Runs(w, id, p)
  {
    if event.Try? && id in w.requests && w.requests[id].Choosing? && w.requests[id].candidates != [] {
      TryBegins(w, id, w.requests[id].candidates[0]);
    }
    hide StateOf;
  }

  lemma {:induction false} OnwardKeepsLeased(w: World, events: seq<Event>, p: nat)
    requires Inv(w) && RunnersLeased(w, p) && Spares(w, events)
    ensures RunnersLeased(Onward(w, events), p)
    decreases |events|
  {
    hide Inv, Next, RunnersLeased, ReapsRunner;
    if |events| > 0 {
      var n := |events| - 1;
      var before := events[..n];
      assert Spares(w, before) by {
        forall m | 0 <= m < n ensures !ReapsRunner(Onward(w, before[..m]), before[m]) {
          assert before[..m] == events[..m] && before[m] == events[m];
        }
      }
      OnwardKeepsLeased(w, before, p);
      OnwardKeepsInv(w, before);
      NextKeepsLeased(Onward(w, before), events[n], p);
    }
  }

  lemma {:induction false} LeasedHoldersFit(w: World, p: nat)
    requires Inv(w) && RunnersLeased(w, p) && p < |w.pools|
    ensures Holders(w, p) <= StateOf(w.pools[p]).leases.Keys && |Holders(w, p)| <= PoolCapacity(w, p)
  {
    var pool := w.pools[p];
    assert PoolOk(w.requests, p, pool);
    S.ExactlyOnce(pool.capacity, pool.history, "");
    S.RunKeepsInv(pool.capacity, pool.history);
    var leases := StateOf(pool).leases;
    assert forall id :: id in Holders(w, p) ==> Runs(w, id, p);
    hide Inv, StateOf;
    SubsetIsSmaller(Holders(w, p), leases.Keys);
    assert |leases.Keys| == |leases|;
  }

  /** If no eviction of a run hits a request that still runs, then at every time of the run every holder of every pool
      ever published has its lease, and a pool serves no more requests at once than it has slots. */
  lemma {:induction false} HoldersWithinCapacity(events: seq<Event>, n: nat, p: nat)
    requires Spares(Start(), events) && n <= |events| && p < |Live(events[..n]).pools|
    ensures var w := Live(events[..n]);
      Holders(w, p) <= StateOf(w.pools[p]).leases.Keys && |Holders(w, p)| <= PoolCapacity(w, p)
  {
    assert Spares(Start(), events[..n]) by {
      forall m | 0 <= m < n ensures !ReapsRunner(Onward(Start(), events[..n][..m]), events[..n][m]) {
        assert events[..n][..m] == events[..m];
      }
    }
    LiveIsOk([]);
    assert Live([]) == Start();
    OnwardKeepsLeased(Start(), events[..n], p);
    LiveIsOk(events[..n]);
    LeasedHoldersFit(Live(events[..n]), p);
  }

  function Start(): World {
    World([], map[], map[], [])
  }

  /** The watchdog of the run has its hard timeout switched off. */
  predicate TimeoutOff(events: seq<Event>) {
    forall i :: 0 <= i < |events| && events[i].Reap? ==> events[i].hardTimeout <= 0
  }

  ghost predicate Harmless(s: S.State) {
    forall i :: 0 <= i < |s.threads| && s.threads[i].Reaping? ==> s.threads[i].hardTimeout <= 0
  }

  lemma {:induction false} StaysHarmless(s: S.State, a: S.Action)
    requires Harmless(s) && (a.Begin? && a.call.Reaping? ==> a.call.hardTimeout <= 0)
    ensures Harmless(S.Step(s, a))
  {
  }

  lemma {:induction false} AllHarmless(events: seq<Event>, p: nat)
    requires TimeoutOff(events) && p < |Live(events).pools|
    ensures Harmless(StateOf(Live(events).pools[p]))
    decreases |events|
  {
    if |events| > 0 {
      var before, event := events[..|events| - 1], events[|events| - 1];
      var w := Live(before);
      assert Live(events) == Next(w, event);
      assert TimeoutOff(before) && (event.Reap? ==> event.hardTimeout <= 0);
      hide StateOf, Next, Harmless, TimeoutOff, Live;
      if p < |w.pools| {
        AllHarmless(before, p);
      }
      NextHarmless(w, event, p);
    }
  }

  lemma {:induction false} NextHarmless(w: World, event: Event, p: nat)
    requires (event.Reap? ==> event.hardTimeout <= 0) && p < |Next(w, event).pools|
    requires p < |w.pools| ==> Harmless(StateOf(w.pools[p]))
    ensures Harmless(StateOf(Next(w, event).pools[p]))
  {
    if p < |w.pools| {
      var a := PoolActs(w, event, p);
      ActedSteps(w.pools[p], a);
      hide StateOf, Next, Harmless;
      StaysHarmless(StateOf(w.pools[p]), a);
    } else {
      assert event.Publish? && Next(w, event).pools[p] == NewPools(event.endpoints)[p - |w.pools|] by {
        hide StateOf;
      }
      NewIsEmpty(Next(w, event).pools[p]);
      hide StateOf;
    }
  }

  /** With the timeout off every run spares its requests, so no pool ever goes past its capacity. */
  lemma {:induction false} TimeoutOffSpares(events: seq<Event>)
    requires TimeoutOff(events)
    ensures Spares(Start(), events)
  {
    forall n | 0 <= n < |events| ensures !ReapsRunner(Onward(Start(), events[..n]), events[n]) {
      var w, event := Live(events[..n]), events[n];
      if event.Within? && event.pool < |w.pools| {
        AllHarmless(events[..n], event.pool);
      }
    }
  }

  // ---------------------------------------------------------------- a runner without its lease

  /** Nothing swaps the table, reaps, touches or leaves. */
  predicate Gentle(events: seq<Event>) {
    forall i :: 0 <= i < |events| ==> IsGentle(events[i])
  }

  predicate IsGentle(event: Event) {
    !event.Publish? && !event.Reap? && !event.Touch? && !event.Leave? && !(event.Within? && event.action.Reap?)
  }

  lemma {:induction false} GentleAppend(first: seq<Event>, rest: seq<Event>)
    requires Gentle(first) && Gentle(rest)
    ensures Gentle(first + rest)
  {
  }

  /** The request holds the pool and has no lease there. */
  ghost predicate Bare(w: World, id: Id, p: nat) {
    && p < |w.pools| && id in w.requests && w.requests[id] == Holding(p) && id !in StateOf(w.pools[p]).leases
  }

  lemma {:induction false} NoLeaseComesBack(s: S.State, a: S.Action, id: Id)
    requires id !in s.leases && forall i :: 0 <= i < |s.threads| ==> s.threads[i] != S.Counted(id)
    ensures id !in S.Step(s, a).leases
  {
  }

  lemma {:induction false} NextStaysBare(w: World, event: Event, id: Id, p: nat)
    requires Inv(w) && Bare(w, id, p) && IsGentle(event)
    ensures Bare(Next(w, event), id, p)
  {
    var a := PoolActs(w, event, p);
    var s := StateOf(w.pools[p]);
    ActedSteps(w.pools[p], a);
    assert PendingOk(w.requests, p, s) by {
      assert PoolOk(w.requests, p, w.pools[p]);
    }
    hide Inv, StateOf, Next;
    StaysHolding(w, event, id, p);
    NoLeaseComesBack(s, a, id);
  }

  lemma {:induction false} StaysHolding(w: World, event: Event, id: Id, p: nat)
    requires id in w.requests && w.requests[id] == Holding(p) && IsGentle(event)
    ensures id in Next(w, event).requests && Next(w, event).requests[id] == Holding(p)
  {
    hide StateOf;
  }

  lemma {:induction false} OnwardStaysBare(w: World, events: seq<Event>, id: Id, p: nat)
    requires Inv(w) && Bare(w, id, p) && Gentle(events)
    ensures Bare(Onward(w, events), id, p) && Inv(Onward(w, events))
  {
    hide Inv, Next, Bare, IsGentle;
    if |events| > 0 {
      var before := events[..|events| - 1];
      OnwardStaysBare(w, before, id, p);
      NextStaysBare(Onward(w, before), events[|events| - 1], id, p);
      NextKeepsInv(Onward(w, before), events[|events| - 1]);
    }
  }

  // ---------------------------------------------------------------- first: the threads of the pool finish

  /** The thread has no slot between counter and map, and no lease to delete. */
  predicate Calm(t: S.Thread) {
    S.Held(t) == {} && !t.Releasing?
  }

  predicate Finishing(a: S.Action) {
    a.Insert? || a.Remove? || a.Decrement?
  }

  predicate AllFinishing(actions: seq<S.Action>) {
    forall i :: 0 <= i < |actions| ==> Finishing(actions[i])
  }

  /** Only thread `k` has moved, and it is calm. */
  predicate CalmedAt(s: S.State, s': S.State, k: nat) {
    |s'.threads| == |s.threads| && k < |s.threads| && s'.threads == s.threads[k := s'.threads[k]] && Calm(s'.threads[k])
  }

  lemma {:induction false} RunOne(s: S.State, a: S.Action)
    ensures S.Run(s, [a]) == S.Step(s, a)
  {
    hide S.Step;
    assert [a][..0] == [] && S.Run(s, []) == s;
  }

  /** The thread gives back the slots it owes, one by one. */
  lemma {:induction false} Decrements(s: S.State, k: nat) returns (actions: seq<S.Action>)
    requires k < |s.threads| && s.threads[k].Owing?
    ensures AllFinishing(actions) && CalmedAt(s, S.Run(s, actions), k)
    decreases |s.threads[k].ids|
  {
    var ids := s.threads[k].ids;
    if ids == {} {
      actions := [];
      assert s.threads[k := s.threads[k]] == s.threads;
    } else {
      var id :| id in ids;
      var a := S.Decrement(k, id);
      var s1 := S.Step(s, a);
      assert s1.threads == s.threads[k := S.Owe(ids - {id})];
      actions := [a];
      RunOne(s, a);
      if s1.threads[k].Owing? {
        assert |ids - {id}| < |ids|;
        hide S.Step, S.Run;
        var rest := Decrements(s1, k);
        actions := [a] + rest;
        S.RunAppend(s, [a], rest);
      }
    }
  }

  /** The thread inserts its lease, or deletes its lease and gives the slot back. */
  lemma {:induction false} CalmOne(s: S.State, k: nat) returns (actions: seq<S.Action>)
    requires k < |s.threads|
    ensures AllFinishing(actions) && CalmedAt(s, S.Run(s, actions), k)
  {
    var t := s.threads[k];
    if t.Counted? {
      actions := [S.Insert(k, 0)];
      RunOne(s, actions[0]);
    } else if t.Owing? {
      actions := Decrements(s, k);
    } else if t.Releasing? {
      var a := S.Remove(k);
      var s1 := S.Step(s, a);
      RunOne(s, a);
      assert s1.threads == s.threads[k := s1.threads[k]] && (s1.threads[k].Owing? || s1.threads[k].Finished?);
      actions := [a];
      if s1.threads[k].Owing? {
        hide S.Step, S.Run;
        var rest := Decrements(s1, k);
        actions := [a] + rest;
        S.RunAppend(s, [a], rest);
      }
    } else {
      actions := [];
      assert s.threads[k := t] == s.threads;
    }
  }

  /** Every thread from `k` on finishes what it is at. */
  lemma {:induction false} CalmAll(s: S.State, k: nat) returns (actions: seq<S.Action>)
    requires k <= |s.threads| && forall i :: 0 <= i < k ==> Calm(s.threads[i])
    ensures AllFinishing(actions)
    ensures forall i :: 0 <= i < |S.Run(s, actions).threads| ==> Calm(S.Run(s, actions).threads[i])
    decreases |s.threads| - k
  {
    hide S.Step, Calm;
    if k == |s.threads| {
      actions := [];
    } else {
      var first := CalmOne(s, k);
      var s1 := S.Run(s, first);
      var rest := CalmAll(s1, k + 1);
      hide S.Run;
      actions := first + rest;
      S.RunAppend(s, first, rest);
    }
  }

  function Inside(p: nat, actions: seq<S.Action>): (events: seq<Event>)
    ensures |events| == |actions| && forall i :: 0 <= i < |actions| ==> events[i] == Within(p, actions[i])
  {
    seq(|actions|, i requires 0 <= i < |actions| => Within(p, actions[i]))
  }

  lemma {:induction false} OnwardInside(w: World, p: nat, actions: seq<S.Action>)
    requires p < |w.pools| && AllFinishing(actions)
    ensures Gentle(Inside(p, actions))
    ensures var w' := Onward(w, Inside(p, actions));
      OnlyPool(w, w', p) && w'.requests == w.requests && StateOf(w'.pools[p]) == S.Run(StateOf(w.pools[p]), actions)
    decreases |actions|
  {
    hide StateOf, Next;
    if |actions| == 0 {
      assert w.pools[p := w.pools[p]] == w.pools;
    } else {
      var n := |actions| - 1;
      OnwardInside(w, p, actions[..n]);
      assert Inside(p, actions)[..n] == Inside(p, actions[..n]);
      InsideOne(Onward(w, Inside(p, actions[..n])), p, actions[n]);
      hide S.Step;
    }
  }

  lemma {:induction false} InsideOne(w: World, p: nat, a: S.Action)
    requires p < |w.pools| && Finishing(a)
    ensures var w' := Next(w, Within(p, a));
      OnlyPool(w, w', p) && w'.requests == w.requests && StateOf(w'.pools[p]) == S.Step(StateOf(w.pools[p]), a)
  {
    ActedSteps(w.pools[p], a);
    hide StateOf, S.Step;
  }

  /** The pool's threads can all finish, and no request moves meanwhile. */
  lemma {:induction false} CalmDown(w: World, p: nat) returns (events: seq<Event>)
    requires p < |w.pools|
    ensures Gentle(events) && OnlyPool(w, Onward(w, events), p) && Onward(w, events).requests == w.requests
    ensures forall i :: 0 <= i < |StateOf(Onward(w, events).pools[p]).threads| ==>
      Calm(StateOf(Onward(w, events).pools[p]).threads[i])
  {
    hide StateOf;
    var actions := CalmAll(StateOf(w.pools[p]), 0);
    hide S.Run, Calm;
    events := Inside(p, actions);
    OnwardInside(w, p, actions);
  }

  /** The table and every other pool are as they were. */
  predicate OnlyPool(w: World, w': World, p: nat) {
    && p < |w.pools| && |w'.pools| == |w.pools| && w'.table == w.table && w'.pools == w.pools[p := w'.pools[p]]
    && w'.pools[p].owner == w.pools[p].owner && w'.pools[p].capacity == w.pools[p].capacity
  }

  // ---------------------------------------------------------------- then: every lease is that of a holder

  /** No slot is between counter and map, so the counter is the leases; and each is of a request that runs. */
  lemma {:induction false} CalmIsLeased(w: World, p: nat)
    requires Inv(w) && p < |w.pools|
    requires forall i :: 0 <= i < |StateOf(w.pools[p]).threads| ==> Calm(StateOf(w.pools[p]).threads[i])
    ensures StateOf(w.pools[p]).counter == |StateOf(w.pools[p]).leases|
    ensures forall id :: id in StateOf(w.pools[p]).leases ==> Runs(w, id, p)
  {
    var pool := w.pools[p];
    var s := StateOf(pool);
    assert PoolOk(w.requests, p, pool);
    S.ExactlyOnce(pool.capacity, pool.history, "");
    CalmHoldNothing(s.threads);
    DistinctIsSound(pool);
    forall id | id in s.leases ensures Runs(w, id, p) {
      assert Keeps(w.requests[id], id, p, s);
      assert PhaseOk(w.pools, id, w.requests[id]);
      assert S.AccountFor(s, id);
      LeasedRuns(w, p, id);
    }
  }

  lemma {:induction false} LeasedRuns(w: World, p: nat, id: Id)
    requires p < |w.pools| && id in w.requests && PhaseOk(w.pools, id, w.requests[id])
    requires var s := StateOf(w.pools[p]);
      && Keeps(w.requests[id], id, p, s) && Sound(w.pools[p]) && s.taken[id] > 0
      && forall i :: 0 <= i < |s.threads| ==> Calm(s.threads[i])
    ensures Runs(w, id, p)
  {
    hide StateOf;
  }

  lemma {:induction false} CalmHoldNothing(threads: seq<S.Thread>)
    requires forall i :: 0 <= i < |threads| ==> Calm(threads[i])
    ensures S.InTransit(threads) == 0
    decreases |threads|
  {
    if |threads| > 0 {
      CalmHoldNothing(threads[..|threads| - 1]);
    }
  }

  /** All leases of the pool are of holders, and there are as many as the counter says. */
  ghost predicate AllHeld(w: World, p: nat) {
    && p < |w.pools| && StateOf(w.pools[p]).leases.Keys <= Holders(w, p)
    && |StateOf(w.pools[p]).leases| == StateOf(w.pools[p]).counter
  }

  /** The requests that run and do not know yet see that they hold the pool. */
  lemma {:induction false} SettleAll(w: World, p: nat) returns (events: seq<Event>)
    requires p < |w.pools| && forall id :: id in StateOf(w.pools[p]).leases ==> Runs(w, id, p)
    ensures Gentle(events) && Onward(w, events) == w.(requests := Onward(w, events).requests)
    ensures StateOf(w.pools[p]).leases.Keys <= Holders(Onward(w, events), p)
    decreases StateOf(w.pools[p]).leases.Keys - Holders(w, p)
  {
    hide StateOf;
    var left := StateOf(w.pools[p]).leases.Keys - Holders(w, p);
    if left == {} {
      events := [];
      forall id | id in StateOf(w.pools[p]).leases.Keys ensures id in Holders(w, p) {
        assert id !in left;
      }
    } else {
      var id :| id in left;
      var w1 := Next(w, Settle(id));
      SettlesOne(w, p, id);
      hide Next, Holders, Runs;
      assert left > left - {id} == StateOf(w1.pools[p]).leases.Keys - Holders(w1, p);
      var rest := SettleAll(w1, p);
      events := [Settle(id)] + rest;
      OnwardOneMore(w, Settle(id), rest);
    }
  }

  lemma {:induction false} SettlesOne(w: World, p: nat, id: Id)
    requires p < |w.pools| && Runs(w, id, p) && id !in Holders(w, p)
    ensures var w1 := Next(w, Settle(id));
      && w1 == w.(requests := w.requests[id := Holding(p)])
      && Holders(w1, p) == Holders(w, p) + {id}
      && forall other :: Runs(w, other, p) ==> Runs(w1, other, p)
  {
    hide StateOf;
    assert Next(w, Settle(id)) == w.(requests := w.requests[id := Holding(p)]);
    hide Next;
  }

  // ---------------------------------------------------------------- last: new requests fill the pool

  /** A request arrives and reserves the endpoint's pool `p` undisturbed, as its thread `t`. */
  function HoldEvents(id: Id, p: nat, t: nat): seq<Event> {
    [Arrive(id), View(id, [p]), Try(id), Within(p, S.Load(t)), Within(p, S.Cas(t))]
    + [Within(p, S.Insert(t, 0)), Settle(id)]
  }

  /** From `s` to `s'` one more slot is counted and leased, by one more thread. */
  ghost predicate HasTaken(s: S.State, s': S.State, id: Id) {
    && s'.counter == s.counter + 1 && s'.capacity == s.capacity
    && s'.leases == s.leases[id := S.Lease(0, 0)] && s'.threads == s.threads + [S.Reserved(id)]
  }

  function Taken(pool: Published, t: nat): Published {
    Acted(Acted(Acted(pool, S.Load(t)), S.Cas(t)), S.Insert(t, 0))
  }

  /** The events run as told: only the pool and the request have moved. */
  lemma {:induction false} HoldEventsRun(w: World, e: Id, id: Id, t: nat)
    requires e in w.table && w.table[e] < |w.pools| && id !in w.requests && t == |StateOf(w.pools[w.table[e]]).threads|
    requires var s := StateOf(Taken(Acted(w.pools[w.table[e]], S.Begin(S.Reserving(id))), t));
      t < |s.threads| && s.threads[t] == S.Reserved(id)
    ensures var p := w.table[e];
      Onward(w, HoldEvents(id, p, t))
      == World(w.pools[p := Taken(Acted(w.pools[p], S.Begin(S.Reserving(id))), t)], w.table,
               w.requests[id := Holding(p)], w.passes)
  {
    var p := w.table[e];
    var first := [Arrive(id), View(id, [p]), Try(id), Within(p, S.Load(t)), Within(p, S.Cas(t))];
    OnwardFive(w, Arrive(id), View(id, [p]), Try(id), Within(p, S.Load(t)), Within(p, S.Cas(t)));
    OnwardAppend(w, first, [Within(p, S.Insert(t, 0)), Settle(id)]);
    OnwardTwo(Onward(w, first), Within(p, S.Insert(t, 0)), Settle(id));
    EnterRequests(w, e, id);
    var w3 := Next(Next(Next(w, Arrive(id)), View(id, [p])), Try(id));
    hide StateOf, Onward, Next;
    SettleHold(w3, id, p, t);
    assert w3.pools[p := Taken(w3.pools[p], t)] == w.pools[p := Taken(w3.pools[p], t)];
    assert w3.requests[id := Holding(p)] == w.requests[id := Holding(p)];
  }

  lemma {:induction false} HoldOne(w: World, e: Id, id: Id)
    requires e in w.table && w.table[e] < |w.pools| && id !in w.requests
    requires StateOf(w.pools[w.table[e]]).counter < StateOf(w.pools[w.table[e]]).capacity
    ensures var p := w.table[e];
      var w' := Onward(w, HoldEvents(id, p, |StateOf(w.pools[p]).threads|));
      && OnlyPool(w, w', p) && w'.requests == w.requests[id := Holding(p)] && w'.passes == w.passes
      && HasTaken(StateOf(w.pools[p]), StateOf(w'.pools[p]), id)
  {
    var p := w.table[e];
    HoldInside(w.pools[p], id);
    hide StateOf, Onward, HoldEvents;
    HoldEventsRun(w, e, id, |StateOf(w.pools[p]).threads|);
  }

  lemma {:induction false} HoldIsGentle(id: Id, p: nat, t: nat)
    ensures Gentle(HoldEvents(id, p, t))
  {
  }

  lemma {:induction false} SettleHold(w: World, id: Id, p: nat, t: nat)
    requires p < |w.pools| && id in w.requests && w.requests[id] == Trying(p, t, [])
    requires var s := StateOf(Taken(w.pools[p], t)); t < |s.threads| && s.threads[t] == S.Reserved(id)
    ensures Next(Next(Next(Next(w, Within(p, S.Load(t))), Within(p, S.Cas(t))), Within(p, S.Insert(t, 0))), Settle(id))
         == World(w.pools[p := Taken(w.pools[p], t)], w.table, w.requests[id := Holding(p)], w.passes)
  {
    hide StateOf;
    var w6 := Next(Next(Next(w, Within(p, S.Load(t))), Within(p, S.Cas(t))), Within(p, S.Insert(t, 0)));
    assert w6.pools == w.pools[p := Taken(w.pools[p], t)];
    assert ThreadOf(w6, p, t) == S.Reserved(id);
  }

  lemma {:induction false} EnterRequests(w: World, e: Id, id: Id)
    requires e in w.table && w.table[e] < |w.pools| && id !in w.requests
    ensures var p := w.table[e];
      var w3 := Next(Next(Next(w, Arrive(id)), View(id, [p])), Try(id));
      w3 == World(w.pools[p := Acted(w.pools[p], S.Begin(S.Reserving(id)))], w.table,
                  w.requests[id := Trying(p, |StateOf(w.pools[p]).threads|, [])], w.passes)
  {
    hide StateOf;
    var p := w.table[e];
    assert p in w.table.Values;
    var w2 := Next(Next(w, Arrive(id)), View(id, [p]));
    assert w2 == w.(requests := w.requests[id := Arrived][id := Choosing([p])]);
    assert [p][1..] == [];
  }

  /** The pool's side of an undisturbed `Reserve`. */
  lemma {:induction false} HoldInside(pool: Published, id: Id)
    requires StateOf(pool).counter < StateOf(pool).capacity
    ensures HasTaken(StateOf(pool), StateOf(Taken(Acted(pool, S.Begin(S.Reserving(id))), |StateOf(pool).threads|)), id)
  {
    var s := StateOf(pool);
    var t := |s.threads|;
    var pool1 := Acted(pool, S.Begin(S.Reserving(id)));
    var pool3 := Acted(Acted(pool1, S.Load(t)), S.Cas(t));
    ActedSteps(pool, S.Begin(S.Reserving(id)));
    ActedSteps(pool1, S.Load(t));
    ActedSteps(Acted(pool1, S.Load(t)), S.Cas(t));
    ActedSteps(pool3, S.Insert(t, 0));
    hide StateOf;
    SwapsAlone(s, id);
    InsertsAlone(StateOf(pool3), s.threads, id);
  }

  lemma {:induction false} SwapsAlone(s: S.State, id: Id)
    requires s.counter < s.capacity
    ensures var t := |s.threads|;
      var s3 := S.Step(S.Step(S.Step(s, S.Begin(S.Reserving(id))), S.Load(t)), S.Cas(t));
      && s3.counter == s.counter + 1 && s3.capacity == s.capacity && s3.leases == s.leases
      && s3.threads == s.threads + [S.Counted(id)]
  {
    var s1 := S.Step(s, S.Begin(S.Reserving(id)));
    assert s1.threads == s.threads + [S.Reserving(id)];
  }

  lemma {:induction false} InsertsAlone(s: S.State, others: seq<S.Thread>, id: Id)
    requires s.threads == others + [S.Counted(id)]
    ensures var s' := S.Step(s, S.Insert(|others|, 0));
      && s'.counter == s.counter && s'.capacity == s.capacity
      && s'.leases == s.leases[id := S.Lease(0, 0)] && s'.threads == others + [S.Reserved(id)]
  {
  }

  /** One new holder after another takes the slots that are left. */
  lemma {:induction false} FillHolders(w: World, e: Id) returns (events: seq<Event>)
    requires Inv(w) && e in w.table && AllHeld(w, w.table[e])
    ensures Gentle(events) && AllHeld(Onward(w, events), w.table[e]) && OnlyPool(w, Onward(w, events), w.table[e])
    ensures StateOf(Onward(w, events).pools[w.table[e]]).counter >= PoolCapacity(w, w.table[e])
    decreases PoolCapacity(w, w.table[e]) - StateOf(w.pools[w.table[e]]).counter
  {
    hide Inv, Onward, StateOf;
    var p := w.table[e];
    var s := StateOf(w.pools[p]);
    SameCapacity(w.pools[p], w.pools[p]);
    if s.counter >= PoolCapacity(w, p) {
      events := [];
      NothingHappens(w, p);
    } else {
      var longest := Fresh(w.requests.Keys);
      var id := seq(longest + 1, _ => 'x');
      assert id !in w.requests;
      var first := HoldEvents(id, p, |s.threads|);
      HoldOne(w, e, id);
      HoldIsGentle(id, p, |s.threads|);
      var w1 := Onward(w, first);
      OnwardKeepsInv(w, first);
      OneMoreHeld(w, w1, id, p);
      var rest := FillHolders(w1, e);
      hide HoldEvents, AllHeld, HasTaken;
      events := first + rest;
      OnwardAppend(w, first, rest);
      GentleAppend(first, rest);
    }
  }

  lemma {:induction false} NothingHappens(w: World, p: nat)
    requires p < |w.pools|
    ensures Onward(w, []) == w && OnlyPool(w, w, p) && Gentle([])
  {
    assert w.pools[p := w.pools[p]] == w.pools;
  }

  lemma {:induction false} OneMoreHeld(w: World, w': World, id: Id, p: nat)
    requires Inv(w) && AllHeld(w, p) && OnlyPool(w, w', p)
    requires id !in w.requests && w'.requests == w.requests[id := Holding(p)]
    requires HasTaken(StateOf(w.pools[p]), StateOf(w'.pools[p]), id)
    ensures AllHeld(w', p)
  {
    var s := StateOf(w.pools[p]);
    assert id !in s.leases by {
      assert PoolOk(w.requests, p, w.pools[p]);
    }
    hide Inv, StateOf;
    S.MapInsert(s.leases, id, S.Lease(0, 0));
  }

  // ---------------------------------------------------------------- past the capacity

  /** When a request that runs on an endpoint's pool has lost its lease, the pool can come to serve more requests at
      once than it has slots, without any swap, further reaping, touch or departure. */
  lemma {:induction false} ReapedRunnerOverrunsCapacity(w: World, e: Id, id: Id) returns (after: seq<Event>)
    requires Inv(w) && e in w.table && w.table[e] < |w.pools| && Runs(w, id, w.table[e])
    requires id !in StateOf(w.pools[w.table[e]]).leases
    ensures Gentle(after) && |Holders(Onward(w, after), w.table[e])| > PoolCapacity(w, w.table[e])
  {
    var p := w.table[e];
    hide Inv, Onward;
    if w.requests[id] == Holding(p) {
      after := BareHolderOverruns(w, e, id);
    } else {
      SettlesBare(w, id, p);
      hide Next, Bare, StateOf, Runs, Holders;
      var rest := BareHolderOverruns(Next(w, Settle(id)), e, id);
      after := [Settle(id)] + rest;
      OnwardOneMore(w, Settle(id), rest);
      GentleAppend([Settle(id)], rest);
    }
  }

  lemma {:induction false} SettlesBare(w: World, id: Id, p: nat)
    requires Inv(w) && p < |w.pools| && Runs(w, id, p) && w.requests[id] != Holding(p)
    requires id !in StateOf(w.pools[p]).leases
    ensures var w1 := Next(w, Settle(id));
      Inv(w1) && Bare(w1, id, p) && w1.pools == w.pools && w1.table == w.table
  {
    SettleKeepsInv(w, id);
    hide StateOf, Inv;
  }

  lemma {:induction false} BareHolderOverruns(w: World, e: Id, id: Id) returns (after: seq<Event>)
    requires Inv(w) && e in w.table && Bare(w, id, w.table[e])
    ensures Gentle(after) && |Holders(Onward(w, after), w.table[e])| > PoolCapacity(w, w.table[e])
  {
    hide Inv, Onward, StateOf, Calm, Runs;
    var p := w.table[e];
    var a := CalmDown(w, p);
    var w1 := Onward(w, a);
    OnwardKeepsInv(w, a);
    CalmIsLeased(w1, p);
    var b := SettleAll(w1, p);
    var w2 := Onward(w1, b);
    OnwardKeepsInv(w1, b);
    assert AllHeld(w2, p);
    var c := FillHolders(w2, e);
    after := a + (b + c);
    GentleAppend(b, c);
    GentleAppend(a, b + c);
    OnwardAppend(w, a, b + c);
    OnwardAppend(w1, b, c);
    OnwardStaysBare(w, after, id, p);
    HeldAndBare(Onward(w, after), id, p);
  }

  lemma {:induction false} HeldAndBare(w: World, id: Id, p: nat)
    requires AllHeld(w, p) && Bare(w, id, p)
    ensures |Holders(w, p)| > StateOf(w.pools[p]).counter
  {
    hide StateOf;
    var leases := StateOf(w.pools[p]).leases;
    assert |leases.Keys| == |leases|;
    SubsetIsSmaller(leases.Keys + {id}, Holders(w, p));
  }

  // ---------------------------------------------------------------- exactly when

  predicate NoReap(events: seq<Event>) {
    forall i :: 0 <= i < |events| ==> !(events[i].Within? && events[i].action.Reap?)
  }

  /** Whatever happens before the next swap and the next eviction, the pool serves no more requests at once than it
      has slots. */
  ghost predicate StaysWithin(w: World, p: nat)
    requires p < |w.pools|
  {
    forall after :: NoSwap(after) && NoReap(after) ==> |Holders(Onward(w, after), p)| <= PoolCapacity(w, p)
  }

  lemma {:induction false} StaysWithinExactlyWhenLeased(w: World, e: Id)
    requires Inv(w) && e in w.table && w.table[e] < |w.pools|
    ensures StaysWithin(w, w.table[e]) <==> RunnersLeased(w, w.table[e])
  {
    var p := w.table[e];
    hide Inv, Onward, Runs, StateOf;
    if RunnersLeased(w, p) {
      hide RunnersLeased, Holders;
      forall after | NoSwap(after) && NoReap(after) ensures |Holders(Onward(w, after), p)| <= PoolCapacity(w, p) {
        LeasedStaysWithin(w, p, after);
      }
    } else {
      var id :| Runs(w, id, p) && id !in StateOf(w.pools[p]).leases;
      var after := ReapedRunnerOverrunsCapacity(w, e, id);
      GentleIsQuiet(after);
    }
  }

  lemma {:induction false} LeasedStaysWithin(w: World, p: nat, after: seq<Event>)
    requires Inv(w) && p < |w.pools| && RunnersLeased(w, p) && NoSwap(after) && NoReap(after)
    ensures |Holders(Onward(w, after), p)| <= PoolCapacity(w, p)
  {
    hide Inv, Onward, RunnersLeased;
    NoReapSpares(w, after);
    OnwardKeepsLeased(w, after, p);
    OnwardKeepsInv(w, after);
    OnwardKeepsTable(w, after);
    LeasedHoldersFit(Onward(w, after), p);
  }

  lemma {:induction false} GentleIsQuiet(events: seq<Event>)
    requires Gentle(events)
    ensures NoSwap(events) && NoReap(events)
  {
  }

  lemma {:induction false} NoReapSpares(w: World, events: seq<Event>)
    requires NoReap(events)
    ensures Spares(w, events)
  {
    hide Onward;
  }

  /** In a run whose evictions so far have spared all requests that still ran, one more eviction keeps the pool of an
      endpoint within its capacity, whatever happens before the next swap and the next eviction, if and only if it
      spares them too. */
  lemma {:induction false} EvictionKeepsBoundExactlyWhenItSpares(before: seq<Event>, e: Id, tid: nat)
    requires Spares(Start(), before) && e in Live(before).table
    ensures var w, p := Live(before), Live(before).table[e];
      var evict := Within(p, S.Reap(tid));
      && p < |w.pools| && p < |Next(w, evict).pools|
      && (!ReapsRunner(w, evict) <==> StaysWithin(Next(w, evict), p))
  {
    var w, p := Live(before), Live(before).table[e];
    var evict := Within(p, S.Reap(tid));
    LiveIsOk(before);
    assert p < |w.pools|;
    LiveIsOk([]);
    assert Live([]) == Start();
    OnwardKeepsLeased(Start(), before, p);
    NextKeepsInv(w, evict);
    NextKeepsTable(w, evict);
    StaysWithinExactlyWhenLeased(Next(w, evict), e);
    hide Inv, StaysWithin, Spares;
    if ReapsRunner(w, evict) {
      EvictsRunner(w, p, tid);
    } else {
      NextKeepsLeased(w, evict, p);
    }
  }

  lemma {:induction false} EvictsRunner(w: World, p: nat, tid: nat)
    requires p < |w.pools| && ReapsRunner(w, Within(p, S.Reap(tid)))
    ensures p < |Next(w, Within(p, S.Reap(tid))).pools| && !RunnersLeased(Next(w, Within(p, S.Reap(tid))), p)
  {
    var t := ThreadOf(w, p, tid);
    var id :| id in S.Stale(StateOf(w.pools[p]).leases, t.now, t.hardTimeout) && Runs(w, id, p);
    EvictsOneRunner(w, p, tid, id);
  }

  lemma {:induction false} EvictsOneRunner(w: World, p: nat, tid: nat, id: Id)
    requires p < |w.pools| && ThreadOf(w, p, tid).Reaping? && Runs(w, id, p)
    requires var t := ThreadOf(w, p, tid); id in S.Stale(StateOf(w.pools[p]).leases, t.now, t.hardTimeout)
    ensures var w' := Next(w, Within(p, S.Reap(tid)));
      p < |w'.pools| && Runs(w', id, p) && id !in StateOf(w'.pools[p]).leases
  {
    StillRuns(w, p, tid, id);
    assert Next(w, Within(p, S.Reap(tid))).pools[p] == Acted(w.pools[p], S.Reap(tid));
    ActedSteps(w.pools[p], S.Reap(tid));
    hide StateOf, Next, Runs, S.Stale, S.Step;
    EvictedIsGone(StateOf(w.pools[p]), tid, id);
  }

  lemma {:induction false} EvictedIsGone(s: S.State, tid: nat, id: Id)
    requires tid < |s.threads| && s.threads[tid].Reaping?
    requires id in S.Stale(s.leases, s.threads[tid].now, s.threads[tid].hardTimeout)
    ensures id !in S.Step(s, S.Reap(tid)).leases
  {
  }

  lemma {:induction false} StillRuns(w: World, p: nat, tid: nat, id: Id)
    requires p < |w.pools| && Runs(w, id, p) && ThreadOf(w, p, tid).Reaping?
    ensures Runs(Next(w, Within(p, S.Reap(tid))), id, p)
  {
    ActedSteps(w.pools[p], S.Reap(tid));
    hide StateOf;
  }

  // ---------------------------------------------------------------- a run of the proxy that goes past the capacity

  predicate NoTouch(events: seq<Event>) {
    forall i :: 0 <= i < |events| ==> !events[i].Touch?
  }

  /** Nobody touches a lease while its request runs, so a request that outlasts the hard timeout is reaped alive, and
      its slot given to another: for any capacity there is a run, without a swap after the first table, in which a
      pool serves more requests at once than it has slots. */
  lemma {:induction false} ReapedHolderOverrunsCapacity(e: Id, capacity: int)
    ensures exists events: seq<Event> :: NoTouch(events) && Overruns(Live(events), capacity)
  {
    var w := ReapedRunner(e, capacity);
    hide Inv, Next, StateOf, Runs, Onward, HoldEvents, NoTouch, Holders;
    var after := ReapedRunnerOverrunsCapacity(w, e, "a");
    OnlyOnePool(w, after, e);
    var reap := [Watch, Reap(0, 0, 2, 1), Within(0, S.Reap(1))];
    var before := [Publish([(e, capacity)])] + HoldEvents("a", 0, 0) + reap;
    OnwardAppend(Start(), before, after);
    NobodyTouches(e, capacity, after);
    assert NoTouch(before + after) && Overruns(Live(before + after), capacity);
  }

  /** The only pool there ever was, of this capacity, serves more requests than it has slots. */
  ghost predicate Overruns(w: World, capacity: int) {
    && |w.pools| == 1 && w.pools[0].capacity == capacity
    && |Holders(w, 0)| > (if capacity < 1 then 1 else capacity)
  }

  lemma {:induction false} NobodyTouches(e: Id, capacity: int, after: seq<Event>)
    requires Gentle(after)
    ensures var reap := [Watch, Reap(0, 0, 2, 1), Within(0, S.Reap(1))];
      NoTouch([Publish([(e, capacity)])] + HoldEvents("a", 0, 0) + reap + after)
  {
  }

  /** A request takes a slot of the only pool, and is evicted. */
  lemma {:induction false} ReapedRunner(e: Id, capacity: int) returns (w: World)
    ensures var reap := [Watch, Reap(0, 0, 2, 1), Within(0, S.Reap(1))];
      w == Live([Publish([(e, capacity)])] + HoldEvents("a", 0, 0) + reap)
    ensures Inv(w) && |w.pools| == 1 && w.pools[0].capacity == capacity && e in w.table && w.table[e] == 0
    ensures Runs(w, "a", 0) && "a" !in StateOf(w.pools[0]).leases
  {
    var publish := Publish([(e, capacity)]);
    var reap := [Watch, Reap(0, 0, 2, 1), Within(0, S.Reap(1))];
    var w1 := OneSlot(e, capacity);
    HoldOne(w1, e, "a");
    var w2 := Onward(w1, HoldEvents("a", 0, 0));
    hide Next, HoldEvents, StateOf, Inv;
    ReapOne(w2, e, "a");
    w := Onward(w2, reap);
    OnwardAppend(Start(), [publish], HoldEvents("a", 0, 0));
    OnwardAppend(Start(), [publish] + HoldEvents("a", 0, 0), reap);
    LiveIsOk([publish] + HoldEvents("a", 0, 0) + reap);
  }

  lemma {:induction false} OnlyOnePool(w: World, events: seq<Event>, e: Id)
    requires Gentle(events) && |w.pools| == 1
    ensures |Onward(w, events).pools| == 1 && Onward(w, events).pools[0].capacity == w.pools[0].capacity
  {
    hide Next;
    if |events| > 0 {
      OnlyOnePool(w, events[..|events| - 1], e);
      NextKeepsTable(Onward(w, events[..|events| - 1]), events[|events| - 1]);
    }
  }

  lemma {:induction false} OneSlot(e: Id, capacity: int) returns (w: World)
    ensures w == Live([Publish([(e, capacity)])]) && |w.pools| == 1 && StateOf(w.pools[0]) == S.Init(capacity)
    ensures w.pools[0].capacity == capacity && w.requests == map[] && w.passes == [] && e in w.table && w.table[e] == 0
  {
    var publish := Publish([(e, capacity)]);
    SwapBetween([], publish, []);
    assert [] + [publish] + [] == [publish];
    w := Live([publish]);
    OneEndpoint(Live([]), e, capacity);
    assert w.pools[0] == Published(e, capacity, []);
  }

  /** A watchdog pass evicts the one lease there is. */
  lemma {:induction false} ReapOne(w: World, e: Id, id: Id)
    requires |w.pools| == 1 && e in w.table && w.table[e] == 0 && w.passes == []
    requires StateOf(w.pools[0]).leases == map[id := S.Lease(0, 0)] && |StateOf(w.pools[0]).threads| == 1
    ensures var w' := Onward(w, [Watch, Reap(0, 0, 2, 1), Within(0, S.Reap(1))]);
      && |w'.pools| == 1 && w'.pools[0].capacity == w.pools[0].capacity && w'.table == w.table
      && w'.requests == w.requests && StateOf(w'.pools[0]).leases == map[]
  {
    var pool := w.pools[0];
    var reap := [Watch, Reap(0, 0, 2, 1), Within(0, S.Reap(1))];
    assert reap == [Watch, Reap(0, 0, 2, 1)] + [Within(0, S.Reap(1))];
    OnwardAppend(w, [Watch, Reap(0, 0, 2, 1)], [Within(0, S.Reap(1))]);
    OnwardTwo(w, Watch, Reap(0, 0, 2, 1));
    var w2 := Next(Next(w, Watch), Reap(0, 0, 2, 1));
    OnwardOneMore(w2, Within(0, S.Reap(1)), []);
    assert [Within(0, S.Reap(1))] + [] == [Within(0, S.Reap(1))];
    ActedSteps(pool, S.Begin(S.Reaping(2, 1)));
    ActedSteps(Acted(pool, S.Begin(S.Reaping(2, 1))), S.Reap(1));
    EvictsOne(StateOf(pool), id);
    hide StateOf, S.Step;
    assert 0 in w.table.Values by {
      assert w.table[e] == 0;
    }
    assert w2.pools == [Acted(pool, S.Begin(S.Reaping(2, 1)))];
  }

  lemma {:induction false} EvictsOne(s: S.State, id: Id)
    requires s.leases == map[id := S.Lease(0, 0)] && |s.threads| == 1
    ensures S.Step(S.Step(s, S.Begin(S.Reaping(2, 1))), S.Reap(1)).leases == map[]
  {
    var s1 := S.Step(s, S.Begin(S.Reaping(2, 1)));
    assert s1.threads[1] == S.Reaping(2, 1);
    assert S.Stale(s.leases, 2, 1) == {id};
  }
}
