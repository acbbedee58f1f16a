/** Requests, table swaps and the lease watchdog of the router, interleaved freely: `router/internal/proxy/proxy.go`,
    `.../registry/table.go` and `.../discovery/worker.go` over the pools of `.../capacity/pool.go`.

    A swap publishes new pools and replaces the table; requests that loaded the old table go on using its pools.
    Every pool ever published is kept here with the history of the atomic operations done to it, so that its state
    is a run of the machine in `PoolSteps`.  Lease ids are distinct: a request arrives under an id not used before. */
module Rcu {
  import S = PoolSteps

  type Id = string

  datatype Published = Published(owner: Id, capacity: int, history: seq<S.Action>)

  /** Where a request is in `ServeHTTP`; pools are named by the order of their publication. */
  datatype Phase =
    | Arrived                                              // has not loaded the table yet
    | Choosing(candidates: seq<nat>)                       // has candidates left to try
    | Trying(pool: nat, tid: nat, rest: seq<nat>)          // inside `Reserve` of a pool
    | Holding(pool: nat)
    | Leaving(pool: nat, tid: nat)                         // inside the deferred `Release`
    | Left(pool: nat)
    | TurnedAway                                           // answered with 503

  /** `table` maps endpoint ids to their current pools; `passes` are the watchdog passes with the pools each still
      has to reap. */
  datatype World = World(pools: seq<Published>, table: map<Id, nat>, requests: map<Id, Phase>, passes: seq<set<nat>>)

  datatype Event =
    | Publish(endpoints: seq<(Id, int)>)                   // a rescan, or the first table
    | Arrive(id: Id)
    | View(id: Id, candidates: seq<nat>)                   // loads the table, filters and sorts it somehow
    | Try(id: Id)
    | Settle(id: Id)
    | Leave(id: Id)
    | Gone(id: Id)
    | Touch(id: Id, now: int)
    | Within(pool: nat, action: S.Action)                  // one atomic operation of any thread inside a pool
    | Watch
    | Reap(pass: nat, pool: nat, now: int, hardTimeout: int)

  function StateOf(p: Published): S.State {
    S.Run(S.Init(p.capacity), p.history)
  }

  function Acted(p: Published, a: S.Action): Published {
    p.(history := p.history + [a])
  }

  function Acting(w: World, p: nat, a: S.Action): World
    requires p < |w.pools|
  {
    w.(pools := w.pools[p := Acted(w.pools[p], a)])
  }

  function NewPools(endpoints: seq<(Id, int)>): seq<Published> {
    seq(|endpoints|, k requires 0 <= k < |endpoints| => Published(endpoints[k].0, endpoints[k].1, []))
  }

  /** The new table; of several endpoints with one id the last counts. */
  function NewTable(endpoints: seq<(Id, int)>, first: nat): map<Id, nat> {
    if |endpoints| == 0 then map[]
    else
      var n := |endpoints| - 1;
      NewTable(endpoints[..n], first)[endpoints[n].0 := first + n]
  }

  predicate Distinct(candidates: seq<nat>) {
    forall i, j :: 0 <= i < j < |candidates| ==> candidates[i] != candidates[j]
  }

  /** The thread that stands for a request inside a pool. */
  function ThreadOf(w: World, p: nat, tid: nat): S.Thread {
    if p < |w.pools| && tid < |StateOf(w.pools[p]).threads| then StateOf(w.pools[p]).threads[tid] else S.Finished
  }

  /** One event.  An event that does not fit the world changes nothing. */
  function Next(w: World, event: Event): World {
    match event
    case Publish(endpoints) =>
      w.(pools := w.pools + NewPools(endpoints), table := NewTable(endpoints, |w.pools|))
    case Arrive(id) =>
      if id in w.requests then w else w.(requests := w.requests[id := Arrived])
    case View(id, candidates) =>
      if id in w.requests && w.requests[id].Arrived? && Distinct(candidates)
         && (forall c :: c in candidates ==> c in w.table.Values)
      then w.(requests := w.requests[id := Choosing(candidates)])
      else w
    case Try(id) =>
      if id in w.requests && w.requests[id].Choosing? then
        var candidates := w.requests[id].candidates;
        if candidates == [] then w.(requests := w.requests[id := TurnedAway])
        else if candidates[0] < |w.pools| then
          Entering(w, id, candidates[0], S.Reserving(id),
                   Trying(candidates[0], |StateOf(w.pools[candidates[0]]).threads|, candidates[1..]))
        else w
      else w
    case Settle(id) =>
      if id in w.requests && w.requests[id].Trying? then
        var ph := w.requests[id];
        var t := ThreadOf(w, ph.pool, ph.tid);
        if t.Reserved? then w.(requests := w.requests[id := Holding(ph.pool)])
        else if t.Refused? then w.(requests := w.requests[id := Choosing(ph.rest)])
        else w
      else w
    case Leave(id) =>
      if id in w.requests && w.requests[id].Holding? && w.requests[id].pool < |w.pools| then
        var p := w.requests[id].pool;
        Entering(w, id, p, S.Releasing(id), Leaving(p, |StateOf(w.pools[p]).threads|))
      else w
    case Gone(id) =>
      if id in w.requests && w.requests[id].Leaving? && ThreadOf(w, w.requests[id].pool, w.requests[id].tid).Finished?
      then w.(requests := w.requests[id := Left(w.requests[id].pool)])
      else w
    case Touch(id, now) =>
      if id in w.requests && w.requests[id].Holding? && w.requests[id].pool < |w.pools| then
        Acting(w, w.requests[id].pool, S.Begin(S.Touching(id, now)))
      else w
    case Within(p, a) =>
      if p < |w.pools| && !a.Begin? then Acting(w, p, a) else w
    case Watch =>
      w.(passes := w.passes + [w.table.Values])
    case Reap(pass, p, now, hardTimeout) =>
      if pass < |w.passes| && p in w.passes[pass] && p < |w.pools| then
        Acting(w, p, S.Begin(S.Reaping(now, hardTimeout))).(passes := w.passes[pass := w.passes[pass] - {p}])
      else w
  }

  /** A request starts a call on a pool. */
  function Entering(w: World, id: Id, p: nat, call: S.Thread, phase: Phase): World
    requires p < |w.pools|
  {
    Acting(w, p, S.Begin(call)).(requests := w.requests[id := phase])
  }

  function Live(events: seq<Event>): World {
    Onward(World([], map[], map[], []), events)
  }

  function Onward(w: World, events: seq<Event>): World {
    if |events| == 0 then w else Next(Onward(w, events[..|events| - 1]), events[|events| - 1])
  }

  // ---------------------------------------------------------------- the invariant

  /** The request has called `Reserve` on this pool and was not turned away by it. */
  predicate AtPool(ph: Phase, p: nat) {
    !ph.Arrived? && !ph.Choosing? && !ph.TurnedAway? && ph.pool == p
  }

  /** The pools still to try are there, and have not been asked yet. */
  ghost predicate Ahead(pools: seq<Published>, id: Id, candidates: seq<nat>) {
    && Distinct(candidates)
    && forall c :: c in candidates ==> c < |pools| && !S.Called(pools[c].history, id)
  }

  predicate Departing(t: S.Thread, id: Id) {
    t == S.Releasing(id) || t.Owing? || t.Finished?
  }

  ghost predicate ReserverAt(p: Published, tid: nat, id: Id) {
    var s := StateOf(p);
    tid < |s.threads| && S.IsReserver(s.threads[tid]) && s.threads[tid].id == id
  }

  ghost predicate DepartingAt(p: Published, tid: nat, id: Id) {
    var s := StateOf(p);
    tid < |s.threads| && Departing(s.threads[tid], id)
  }

  ghost predicate PhaseOk(pools: seq<Published>, id: Id, ph: Phase) {
    match ph
    case Arrived => forall p :: 0 <= p < |pools| ==> !S.Called(pools[p].history, id)
    case Choosing(candidates) => Ahead(pools, id, candidates)
    case Trying(p, tid, rest) => p < |pools| && p !in rest && Ahead(pools, id, rest) && ReserverAt(pools[p], tid, id)
    case Holding(p) => p < |pools| && StateOf(pools[p]).taken[id] == 1
    case Leaving(p, tid) => p < |pools| && StateOf(pools[p]).taken[id] == 1 && DepartingAt(pools[p], tid, id)
    case Left(p) => p < |pools| && StateOf(pools[p]).taken[id] == 1
    case TurnedAway => true
  }

  predicate Pending(t: S.Thread) {
    t.Reserving? || t.Loaded? || t.Counted?
  }

  /** Whose lease it is: a request that is about to see its reservation done, holds it, or has not yet deleted it. */
  ghost predicate Keeps(ph: Phase, id: Id, p: nat, s: S.State) {
    || (ph.Trying? && ph.pool == p)
    || ph == Holding(p)
    || (ph.Leaving? && ph.pool == p && ph.tid < |s.threads| && s.threads[ph.tid] == S.Releasing(id))
  }

  ghost predicate PendingOk(requests: map<Id, Phase>, p: nat, s: S.State) {
    forall i :: 0 <= i < |s.threads| && Pending(s.threads[i]) ==>
      var id := s.threads[i].id;
      id in requests && requests[id].Trying? && requests[id].pool == p && requests[id].tid == i
  }

  ghost predicate ReleasingOk(requests: map<Id, Phase>, p: nat, s: S.State) {
    forall i :: 0 <= i < |s.threads| && s.threads[i].Releasing? ==>
      s.threads[i].id in requests && requests[s.threads[i].id] == Leaving(p, i)
  }

  ghost predicate LeasesOk(requests: map<Id, Phase>, p: nat, s: S.State) {
    forall id :: id in s.leases ==> id in requests && Keeps(requests[id], id, p, s)
  }

  ghost predicate TakenOk(requests: map<Id, Phase>, p: nat, s: S.State) {
    forall id :: s.taken[id] > 0 ==> id in requests && AtPool(requests[id], p)
  }

  ghost predicate PoolOk(requests: map<Id, Phase>, p: nat, pool: Published) {
    && S.DistinctIds(pool.history)
    && (forall id :: S.Called(pool.history, id) ==> id in requests)
    && TakenOk(requests, p, StateOf(pool))
    && PendingOk(requests, p, StateOf(pool))
    && ReleasingOk(requests, p, StateOf(pool))
    && LeasesOk(requests, p, StateOf(pool))
  }

  ghost predicate Inv(w: World) {
    && (forall e :: e in w.table ==> w.table[e] < |w.pools| && w.pools[w.table[e]].owner == e)
    && (forall id :: id in w.requests ==> PhaseOk(w.pools, id, w.requests[id]))
    && (forall p :: 0 <= p < |w.pools| ==> PoolOk(w.requests, p, w.pools[p]))
  }

  // ---------------------------------------------------------------- facts about one pool

  /** What the distinct ids of a history give for its state. */
  ghost predicate Sound(p: Published) {
    var s := StateOf(p);
    && S.OneToken(s, p.history)
    && (forall id :: S.AccountFor(s, id))
    && s.lost == multiset{}
    && CountedTaken(s)
  }

  lemma {:induction false} ActedSteps(p: Published, a: S.Action)
    ensures StateOf(Acted(p, a)) == S.Step(StateOf(p), a)
  {
    assert (p.history + [a])[..|p.history|] == p.history;
  }

  /** A pool nobody has asked is as it was made. */
  lemma {:induction false} NewIsEmpty(p: Published)
    requires p.history == []
    ensures StateOf(p) == S.Init(p.capacity)
  {
  }

  lemma {:induction false} DistinctIsSound(p: Published)
    requires S.DistinctIds(p.history)
    ensures Sound(p)
  {
    S.RunKeepsOneToken(p.capacity, p.history);
    S.RunIsSound(p.capacity, p.history);
    S.RunLosesNothing(p.capacity, p.history);
    CountedIsTaken(p.capacity, p.history);
    forall id ensures S.AccountFor(StateOf(p), id) {
      S.RunKeepsAccount(p.capacity, p.history, id);
    }
  }

  /** A thread past its compare-and-swap has its increment on record. */
  ghost predicate CountedTaken(s: S.State) {
    forall i :: 0 <= i < |s.threads| && (s.threads[i].Counted? || s.threads[i].Reserved?)
      ==> s.taken[s.threads[i].id] > 0
  }

  lemma {:induction false} CountedIsTaken(capacity: int, actions: seq<S.Action>)
    ensures CountedTaken(S.Run(S.Init(capacity), actions))
    decreases |actions|
  {
    hide S.Step;
    if |actions| > 0 {
      CountedIsTaken(capacity, actions[..|actions| - 1]);
      StepCounts(S.Run(S.Init(capacity), actions[..|actions| - 1]), actions[|actions| - 1]);
    }
  }

  lemma {:induction false} StepCounts(s: S.State, a: S.Action)
    requires CountedTaken(s)
    ensures CountedTaken(S.Step(s, a))
  {
    var s' := S.Step(s, a);
    hide S.Step;
    forall i | 0 <= i < |s'.threads| && (s'.threads[i].Counted? || s'.threads[i].Reserved?)
      ensures s'.taken[s'.threads[i].id] > 0
    {
      S.OnlyGrow(s, a, s'.threads[i].id);
      WasCounted(s, a, i);
    }
  }

  /** A thread past its compare-and-swap was past it before, or made it in this step. */
  lemma {:induction false} WasCounted(s: S.State, a: S.Action, i: nat)
    requires i < |S.Step(s, a).threads|
    requires S.Step(s, a).threads[i].Counted? || S.Step(s, a).threads[i].Reserved?
    ensures var t := S.Step(s, a).threads[i];
      S.Step(s, a).taken[t.id] > 0
      || (i < |s.threads| && (s.threads[i].Counted? || s.threads[i].Reserved?) && s.threads[i].id == t.id)
  {
    if a.Begin? || a.tid != i {
      assert i < |s.threads| ==> S.Step(s, a).threads[i] == s.threads[i];
    }
  }

  /** An action that is not a `Reserve` call adds no call, and no id is called twice. */
  lemma {:induction false} QuietAction(history: seq<S.Action>, a: S.Action)
    requires !S.IsReserve(a)
    ensures forall id :: S.Called(history + [a], id) <==> S.Called(history, id)
    ensures S.DistinctIds(history) ==> S.DistinctIds(history + [a])
  {
    S.CalledGrows(history, a);
    forall id | S.Called(history + [a], id) ensures S.Called(history, id) {
      var i :| 0 <= i < |history + [a]| && S.IsReserve((history + [a])[i]) && (history + [a])[i].call.id == id;
      assert history[i] == (history + [a])[i];
    }
  }

  /** A `Reserve` call under an id the pool has not seen adds that id alone. */
  lemma {:induction false} ReserveAction(history: seq<S.Action>, id: Id)
    requires !S.Called(history, id) && S.DistinctIds(history)
    ensures S.DistinctIds(history + [S.Begin(S.Reserving(id))])
    ensures forall other :: S.Called(history + [S.Begin(S.Reserving(id))], other) ==>
      other == id || S.Called(history, other)
  {
    var longer := history + [S.Begin(S.Reserving(id))];
    forall other | S.Called(longer, other) && other != id ensures S.Called(history, other) {
      var i :| 0 <= i < |longer| && S.IsReserve(longer[i]) && longer[i].call.id == other;
      assert history[i] == longer[i];
    }
    forall i, j | 0 <= i < j < |longer| && S.IsReserve(longer[i]) && S.IsReserve(longer[j])
      ensures longer[i].call.id != longer[j].call.id
    {
      assert history[i] == longer[i];
      if j < |history| {
        assert history[j] == longer[j];
      } else {
        assert S.Called(history, history[i].call.id);
      }
    }
  }

  // ---------------------------------------------------------------- one pool acts

  /** A step of a pool leaves a request's own thread a reserver, or on its way out, and takes no increment back. */
  lemma {:induction false} ThreadsStay(s: S.State, a: S.Action, tid: nat, id: Id)
    requires tid < |s.threads|
    ensures tid < |S.Step(s, a).threads|
    ensures S.IsReserver(s.threads[tid]) && s.threads[tid].id == id ==>
      S.IsReserver(S.Step(s, a).threads[tid]) && S.Step(s, a).threads[tid].id == id
    ensures Departing(s.threads[tid], id) ==> Departing(S.Step(s, a).threads[tid], id)
  {
    if a.Begin? || a.tid != tid {
      assert S.Step(s, a).threads[tid] == s.threads[tid];
    }
  }

  lemma {:induction false} PhaseStays(pools: seq<Published>, p: nat, a: S.Action, id: Id, ph: Phase)
    requires p < |pools| && PhaseOk(pools, id, ph)
    requires S.DistinctIds(pools[p].history + [a]) && (S.IsReserve(a) ==> a.call.id != id)
    ensures PhaseOk(pools[p := Acted(pools[p], a)], id, ph)
  {
    CallsStay(pools, p, a, id);
    if !ph.Arrived? && !ph.Choosing? && !ph.TurnedAway? && ph.pool == p {
      ActedSteps(pools[p], a);
      DistinctIsSound(Acted(pools[p], a));
      S.OnlyGrow(StateOf(pools[p]), a, id);
      if ph.Trying? || ph.Leaving? {
        ThreadsStay(StateOf(pools[p]), a, ph.tid, id);
      }
    }
  }

  lemma {:induction false} CallsStay(pools: seq<Published>, p: nat, a: S.Action, id: Id)
    requires p < |pools| && (S.IsReserve(a) ==> a.call.id != id)
    ensures forall q :: 0 <= q < |pools| && !S.Called(pools[q].history, id) ==>
      !S.Called(pools[p := Acted(pools[p], a)][q].history, id)
  {
    var longer := pools[p].history + [a];
    if S.Called(longer, id) {
      var i :| 0 <= i < |longer| && S.IsReserve(longer[i]) && longer[i].call.id == id;
      assert pools[p].history[i] == longer[i];
    }
  }

  /** A step inside a pool, or a call that is neither a reservation nor a release, keeps what the pool promises. */
  lemma {:induction false} PoolStays(requests: map<Id, Phase>, p: nat, pool: Published, a: S.Action)
    requires PoolOk(requests, p, pool)
    requires a.Begin? ==> a.call.Touching? || a.call.Reaping?
    ensures PoolOk(requests, p, Acted(pool, a))
  {
    var s := StateOf(pool);
    ActedSteps(pool, a);
    QuietAction(pool.history, a);
    TakenStays(requests, p, s, a);
    ThreadsOkStay(requests, p, s, a);
    LeasesStay(requests, p, s, a);
  }

  lemma {:induction false} TakenStays(requests: map<Id, Phase>, p: nat, s: S.State, a: S.Action)
    requires TakenOk(requests, p, s) && PendingOk(requests, p, s)
    ensures TakenOk(requests, p, S.Step(s, a))
  {
  }

  lemma {:induction false} ThreadsOkStay(requests: map<Id, Phase>, p: nat, s: S.State, a: S.Action)
    requires PendingOk(requests, p, s) && ReleasingOk(requests, p, s)
    requires a.Begin? ==> a.call.Touching? || a.call.Reaping?
    ensures PendingOk(requests, p, S.Step(s, a)) && ReleasingOk(requests, p, S.Step(s, a))
  {
    hide S.Step;
    var s' := S.Step(s, a);
    forall i | 0 <= i < |s'.threads| && (Pending(s'.threads[i]) || s'.threads[i].Releasing?)
      ensures i < |s.threads| && ComesFrom(s'.threads[i], s.threads[i])
    {
      WasThere(s, a, i);
    }
  }

  /** A thread that is reserving or about to release, and what it was one step before. */
  predicate ComesFrom(t: S.Thread, before: S.Thread) {
    || (Pending(t) && Pending(before) && t.id == before.id)
    || (t.Releasing? && t == before)
  }

  lemma {:induction false} WasThere(s: S.State, a: S.Action, i: nat)
    requires (a.Begin? ==> a.call.Touching? || a.call.Reaping?) && i < |S.Step(s, a).threads|
    ensures var t := S.Step(s, a).threads[i];
      Pending(t) || t.Releasing? ==> i < |s.threads| && ComesFrom(t, s.threads[i])
  {
    if a.Begin? || a.tid != i {
      assert i < |s.threads| ==> S.Step(s, a).threads[i] == s.threads[i];
    }
  }

  lemma {:induction false} LeasesStay(requests: map<Id, Phase>, p: nat, s: S.State, a: S.Action)
    requires LeasesOk(requests, p, s) && PendingOk(requests, p, s)
    ensures LeasesOk(requests, p, S.Step(s, a))
  {
    var s' := S.Step(s, a);
    forall id | id in s'.leases ensures id in requests && Keeps(requests[id], id, p, s') {
      if id in s.leases {
        var ph := requests[id];
        if ph.Leaving? && a.Remove? && a.tid == ph.tid {
          assert s.threads[a.tid] == S.Releasing(id);
        }
      }
    }
  }

  /** Another request, or this one before it comes here, is nothing to this pool. */
  lemma {:induction false} OtherRequest(requests: map<Id, Phase>, p: nat, pool: Published, id: Id, ph: Phase)
    requires PoolOk(requests, p, pool) && (id in requests ==> !AtPool(requests[id], p))
    ensures PoolOk(requests[id := ph], p, pool)
  {
  }

  // ---------------------------------------------------------------- every event keeps the invariant

  /** One pool acts and one request moves: what is left to show is about that pool and that request. */
  lemma {:induction false} MoveKeepsInv(w: World, id: Id, p: nat, a: S.Action, ph: Phase)
    requires Inv(w) && p < |w.pools| && id in w.requests
    requires S.DistinctIds(w.pools[p].history + [a]) && (S.IsReserve(a) ==> a.call.id == id)
    requires forall q :: 0 <= q < |w.pools| && AtPool(w.requests[id], q) ==> q == p
    requires PhaseOk(w.pools[p := Acted(w.pools[p], a)], id, ph)
    requires PoolOk(w.requests[id := ph], p, Acted(w.pools[p], a))
    ensures Inv(Acting(w, p, a).(requests := w.requests[id := ph]))
  {
    hide PhaseOk, PoolOk, S.DistinctIds;
    forall other | other in w.requests && other != id
      ensures PhaseOk(w.pools[p := Acted(w.pools[p], a)], other, w.requests[other])
    {
      PhaseStays(w.pools, p, a, other, w.requests[other]);
    }
    forall q | 0 <= q < |w.pools| && q != p ensures PoolOk(w.requests[id := ph], q, w.pools[q]) {
      OtherRequest(w.requests, q, w.pools[q], id, ph);
    }
  }

  /** A pool acts and no request moves. */
  lemma {:induction false} ActKeepsInv(w: World, p: nat, a: S.Action)
    requires Inv(w) && p < |w.pools| && (a.Begin? ==> a.call.Touching? || a.call.Reaping?)
    ensures Inv(Acting(w, p, a))
  {
    PoolStays(w.requests, p, w.pools[p], a);
    QuietAction(w.pools[p].history, a);
    assert S.DistinctIds(w.pools[p].history + [a]);
    hide PhaseOk, PoolOk, S.DistinctIds;
    forall id | id in w.requests ensures PhaseOk(w.pools[p := Acted(w.pools[p], a)], id, w.requests[id]) {
      PhaseStays(w.pools, p, a, id, w.requests[id]);
    }
  }

  /** A request moves and no pool acts. */
  lemma {:induction false} RequestKeepsInv(w: World, id: Id, ph: Phase)
    requires Inv(w) && PhaseOk(w.pools, id, ph)
    requires forall p :: 0 <= p < |w.pools| ==> PoolOk(w.requests[id := ph], p, w.pools[p])
    ensures Inv(w.(requests := w.requests[id := ph]))
  {
    hide PhaseOk, PoolOk;
  }

  /** The request is about to load the counter of a pool that it never asked before. */
  ghost predicate AsksOnce(w: World, w': World, id: Id, p: nat) {
    && p < |w.pools| && p < |w'.pools| && !S.Called(w.pools[p].history, id)
    && id in w'.requests && w'.requests[id].Trying? && w'.requests[id].pool == p
    && ThreadOf(w', p, w'.requests[id].tid) == S.Reserving(id)
  }

  lemma {:induction false} TryKeepsInv(w: World, id: Id)
    requires Inv(w)
    ensures Inv(Next(w, Try(id)))
    ensures id in w.requests && w.requests[id].Choosing? && w.requests[id].candidates != [] ==>
      AsksOnce(w, Next(w, Try(id)), id, w.requests[id].candidates[0])
  {
    if id in w.requests && w.requests[id].Choosing? {
      var candidates := w.requests[id].candidates;
      assert PhaseOk(w.pools, id, w.requests[id]);
      if candidates == [] {
        forall p | 0 <= p < |w.pools| ensures PoolOk(w.requests[id := TurnedAway], p, w.pools[p]) {
          OtherRequest(w.requests, p, w.pools[p], id, TurnedAway);
        }
        RequestKeepsInv(w, id, TurnedAway);
      } else {
        var p := candidates[0];
        assert p in candidates && Ahead(w.pools, id, candidates);
        var ph := Trying(p, |StateOf(w.pools[p]).threads|, candidates[1..]);
        assert PoolOk(w.requests, p, w.pools[p]);
        EnterPool(w.requests, p, w.pools[p], id, ph);
        EnterPhase(w.pools, id, candidates);
        assert forall q :: 0 <= q < |w.pools| ==> !AtPool(w.requests[id], q);
        hide PhaseOk, PoolOk;
        MoveKeepsInv(w, id, p, S.Begin(S.Reserving(id)), ph);
      }
    }
  }

  lemma {:induction false} EnterPool(requests: map<Id, Phase>, p: nat, pool: Published, id: Id, ph: Phase)
    requires PoolOk(requests, p, pool) && !S.Called(pool.history, id)
    requires id in requests && requests[id].Choosing? && ph.Trying? && ph.pool == p && ph.tid == |StateOf(pool).threads|
    ensures PoolOk(requests[id := ph], p, Acted(pool, S.Begin(S.Reserving(id))))
    ensures S.DistinctIds(pool.history + [S.Begin(S.Reserving(id))])
  {
    var a := S.Begin(S.Reserving(id));
    ReserveAction(pool.history, id);
    ActedSteps(pool, a);
    hide S.DistinctIds, S.Called;
    var s := StateOf(pool);
    hide StateOf;
    assert S.Step(s, a).threads == s.threads + [S.Reserving(id)];
  }

  lemma {:induction false} EnterPhase(pools: seq<Published>, id: Id, candidates: seq<nat>)
    requires |candidates| > 0 && candidates[0] < |pools| && Ahead(pools, id, candidates)
    ensures var p := candidates[0];
      PhaseOk(pools[p := Acted(pools[p], S.Begin(S.Reserving(id)))], id,
              Trying(p, |StateOf(pools[p]).threads|, candidates[1..]))
  {
    var p := candidates[0];
    assert p in candidates;
    ActedSteps(pools[p], S.Begin(S.Reserving(id)));
    forall c | c in candidates[1..] ensures c in candidates && c != p {
      var i :| 0 <= i < |candidates[1..]| && candidates[1..][i] == c;
      assert candidates[i + 1] == c;
    }
  }

  lemma {:induction false} SettleKeepsInv(w: World, id: Id)
    requires Inv(w)
    ensures Inv(Next(w, Settle(id)))
    ensures id in w.requests && w.requests[id].Trying? ==>
      var ph, ph' := w.requests[id], Next(w, Settle(id)).requests[id];
      && (ph' == Holding(ph.pool) <==> ThreadOf(w, ph.pool, ph.tid) == S.Reserved(id))
      && (ph' == Choosing(ph.rest) <==> ThreadOf(w, ph.pool, ph.tid) == S.Refused(id))
  {
    if id in w.requests && w.requests[id].Trying? {
      var ph := w.requests[id];
      assert PhaseOk(w.pools, id, ph) && PoolOk(w.requests, ph.pool, w.pools[ph.pool]);
      var t := ThreadOf(w, ph.pool, ph.tid);
      if t.Reserved? || t.Refused? {
        var ph' := if t.Reserved? then Holding(ph.pool) else Choosing(ph.rest);
        SettledPool(w.requests, ph.pool, w.pools[ph.pool], id);
        DistinctIsSound(w.pools[ph.pool]);
        forall p | 0 <= p < |w.pools| ensures PoolOk(w.requests[id := ph'], p, w.pools[p]) {
          if p != ph.pool {
            OtherRequest(w.requests, p, w.pools[p], id, ph');
          }
        }
        RequestKeepsInv(w, id, ph');
      }
    }
  }

  lemma {:induction false} SettledPool(requests: map<Id, Phase>, p: nat, pool: Published, id: Id)
    requires PoolOk(requests, p, pool) && id in requests && requests[id].Trying? && requests[id].pool == p
    requires ReserverAt(pool, requests[id].tid, id)
    ensures StateOf(pool).threads[requests[id].tid].Reserved? ==> PoolOk(requests[id := Holding(p)], p, pool)
    ensures StateOf(pool).threads[requests[id].tid].Refused? ==>
      PoolOk(requests[id := Choosing(requests[id].rest)], p, pool)
  {
    DistinctIsSound(pool);
    var s := StateOf(pool);
    hide StateOf;
    assert s.threads[requests[id].tid].Refused? ==> s.taken[id] == 0;
    assert S.AccountFor(s, id) && (s.taken[id] == 0 ==> id !in s.leases);
    hide S.DistinctIds, S.Called, Sound, S.AccountFor;
  }

  /** The release starts in the pool held; the lease, if no reaper took it, is there for it to delete. */
  ghost predicate Departs(w: World, w': World, id: Id, p: nat) {
    && p < |w.pools| && p < |w'.pools|
    && id in w'.requests && w'.requests[id].Leaving? && w'.requests[id].pool == p
    && ThreadOf(w', p, w'.requests[id].tid) == S.Releasing(id)
    && StateOf(w'.pools[p]).leases == StateOf(w.pools[p]).leases
  }

  lemma {:induction false} LeaveKeepsInv(w: World, id: Id)
    requires Inv(w)
    ensures Inv(Next(w, Leave(id)))
    ensures id in w.requests && w.requests[id].Holding? ==>
      Departs(w, Next(w, Leave(id)), id, w.requests[id].pool)
  {
    if id in w.requests && w.requests[id].Holding? {
      var p := w.requests[id].pool;
      var a := S.Begin(S.Releasing(id));
      var ph := Leaving(p, |StateOf(w.pools[p]).threads|);
      assert PhaseOk(w.pools, id, w.requests[id]) && PoolOk(w.requests, p, w.pools[p]);
      ActedSteps(w.pools[p], a);
      QuietAction(w.pools[p].history, a);
      LeavePool(w.requests, p, w.pools[p], id);
      assert PhaseOk(w.pools[p := Acted(w.pools[p], a)], id, ph);
      hide PhaseOk, PoolOk, StateOf;
      MoveKeepsInv(w, id, p, a, ph);
    }
  }

  lemma {:induction false} LeavePool(requests: map<Id, Phase>, p: nat, pool: Published, id: Id)
    requires PoolOk(requests, p, pool) && id in requests && requests[id] == Holding(p)
    ensures PoolOk(requests[id := Leaving(p, |StateOf(pool).threads|)], p, Acted(pool, S.Begin(S.Releasing(id))))
  {
    var a := S.Begin(S.Releasing(id));
    ActedSteps(pool, a);
    QuietAction(pool.history, a);
    hide S.DistinctIds, S.Called;
    var s := StateOf(pool);
    hide StateOf;
    assert S.Step(s, a).threads == s.threads + [S.Releasing(id)];
  }

  lemma {:induction false} GoneKeepsInv(w: World, id: Id)
    requires Inv(w)
    ensures Inv(Next(w, Gone(id)))
  {
    if id in w.requests && w.requests[id].Leaving? {
      var ph := w.requests[id];
      assert PhaseOk(w.pools, id, ph);
      if ThreadOf(w, ph.pool, ph.tid).Finished? {
        forall p | 0 <= p < |w.pools| ensures PoolOk(w.requests[id := Left(ph.pool)], p, w.pools[p]) {
          if p != ph.pool {
            OtherRequest(w.requests, p, w.pools[p], id, Left(ph.pool));
          } else {
            GonePool(w.requests, p, w.pools[p], id);
          }
        }
        RequestKeepsInv(w, id, Left(ph.pool));
      }
    }
  }

  lemma {:induction false} GonePool(requests: map<Id, Phase>, p: nat, pool: Published, id: Id)
    requires PoolOk(requests, p, pool) && id in requests && requests[id].Leaving? && requests[id].pool == p
    requires requests[id].tid < |StateOf(pool).threads| && StateOf(pool).threads[requests[id].tid].Finished?
    ensures PoolOk(requests[id := Left(p)], p, pool)
  {
    hide S.DistinctIds, S.Called, StateOf;
  }

  lemma {:induction false} PublishKeepsInv(w: World, endpoints: seq<(Id, int)>)
    requires Inv(w)
    ensures Inv(Next(w, Publish(endpoints)))
    ensures var w' := Next(w, Publish(endpoints));
      && |w.pools| <= |w'.pools| && w'.pools[..|w.pools|] == w.pools && w'.requests == w.requests
      && (forall p :: |w.pools| <= p < |w'.pools| ==> w'.pools[p].history == [])
      && (forall e :: e in w'.table <==> exists k :: 0 <= k < |endpoints| && endpoints[k].0 == e)
      && (forall e :: e in w'.table ==> LastPlace(endpoints, e, w'.table[e] - |w.pools|))
  {
    var pools := w.pools + NewPools(endpoints);
    PublishedTable(w, endpoints);
    hide NewTable, LastPlace;
    hide PhaseOk, PoolOk;
    forall p | 0 <= p < |pools| ensures PoolOk(w.requests, p, pools[p]) {
      if p >= |w.pools| {
        assert pools[p] == NewPools(endpoints)[p - |w.pools|];
        NewPoolOk(w.requests, p, pools[p]);
      } else {
        assert pools[p] == w.pools[p];
      }
    }
    forall id | id in w.requests ensures PhaseOk(pools, id, w.requests[id]) {
      assert PhaseOk(w.pools, id, w.requests[id]);
      MorePools(w.pools, NewPools(endpoints), id, w.requests[id]);
    }
  }

  lemma {:induction false} NewPoolOk(requests: map<Id, Phase>, p: nat, pool: Published)
    requires pool.history == []
    ensures PoolOk(requests, p, pool)
  {
  }

  lemma {:induction false} MorePools(pools: seq<Published>, more: seq<Published>, id: Id, ph: Phase)
    requires PhaseOk(pools, id, ph) && forall p :: p in more ==> p.history == []
    ensures PhaseOk(pools + more, id, ph)
  {
    assert forall p :: |pools| <= p < |pools + more| ==> (pools + more)[p] in more;
    assert forall p :: 0 <= p < |pools| ==> (pools + more)[p] == pools[p];
  }

  /** The place `k` is the last one of the endpoint in the list. */
  ghost predicate LastPlace(endpoints: seq<(Id, int)>, e: Id, k: int) {
    0 <= k < |endpoints| && endpoints[k].0 == e && forall j :: k < j < |endpoints| ==> endpoints[j].0 != e
  }

  lemma {:induction false} LastEntry(endpoints: seq<(Id, int)>, first: nat, e: Id)
    ensures e in NewTable(endpoints, first) <==> exists k :: 0 <= k < |endpoints| && endpoints[k].0 == e
    ensures e in NewTable(endpoints, first) ==> LastPlace(endpoints, e, NewTable(endpoints, first)[e] - first)
    decreases |endpoints|
  {
    if |endpoints| > 0 {
      var n := |endpoints| - 1;
      var front := endpoints[..n];
      LastEntry(front, first, e);
      if endpoints[n].0 != e {
        assert forall k :: 0 <= k < n ==> front[k] == endpoints[k];
      }
    }
  }

  /** The new table has exactly the endpoints published, each with the new pool that its last place in the list got. */
  lemma {:induction false} PublishedTable(w: World, endpoints: seq<(Id, int)>)
    ensures var w' := Next(w, Publish(endpoints));
      && (forall e :: e in w'.table <==> exists k :: 0 <= k < |endpoints| && endpoints[k].0 == e)
      && (forall e :: e in w'.table ==> LastPlace(endpoints, e, w'.table[e] - |w.pools|))
      && (forall e :: e in w'.table ==>
            |w.pools| <= w'.table[e] < |w'.pools|
            && w'.pools[w'.table[e]] == Published(e, endpoints[w'.table[e] - |w.pools|].1, []))
  {
    var w' := Next(w, Publish(endpoints));
    forall e
      ensures e in w'.table <==> exists k :: 0 <= k < |endpoints| && endpoints[k].0 == e
      ensures e in w'.table ==> LastPlace(endpoints, e, w'.table[e] - |w.pools|)
    {
      LastEntry(endpoints, |w.pools|, e);
    }
    forall e | e in w'.table
      ensures w'.pools[w'.table[e]] == Published(e, endpoints[w'.table[e] - |w.pools|].1, [])
    {
      assert w'.pools[w'.table[e]] == NewPools(endpoints)[w'.table[e] - |w.pools|];
    }
  }

  lemma {:induction false} ViewKeepsInv(w: World, id: Id, candidates: seq<nat>)
    requires Inv(w)
    ensures Inv(Next(w, View(id, candidates)))
  {
    if Next(w, View(id, candidates)) != w {
      assert PhaseOk(w.pools, id, w.requests[id]);
      forall p | 0 <= p < |w.pools| ensures PoolOk(w.requests[id := Choosing(candidates)], p, w.pools[p]) {
        OtherRequest(w.requests, p, w.pools[p], id, Choosing(candidates));
      }
      RequestKeepsInv(w, id, Choosing(candidates));
    }
  }

  lemma {:induction false} ArriveKeepsInv(w: World, id: Id)
    requires Inv(w)
    ensures Inv(Next(w, Arrive(id)))
  {
    if id !in w.requests {
      forall p | 0 <= p < |w.pools| ensures PoolOk(w.requests[id := Arrived], p, w.pools[p]) {
        OtherRequest(w.requests, p, w.pools[p], id, Arrived);
      }
      assert PhaseOk(w.pools, id, Arrived);
      RequestKeepsInv(w, id, Arrived);
    }
  }

  lemma {:induction false} NextKeepsInv(w: World, event: Event)
    requires Inv(w)
    ensures Inv(Next(w, event))
  {
    hide Inv;
    match event
    case Publish(endpoints) => PublishKeepsInv(w, endpoints);
    case Arrive(id) => ArriveKeepsInv(w, id);
    case View(id, candidates) => ViewKeepsInv(w, id, candidates);
    case Try(id) => TryKeepsInv(w, id);
    case Settle(id) => SettleKeepsInv(w, id);
    case Leave(id) => LeaveKeepsInv(w, id);
    case Gone(id) => GoneKeepsInv(w, id);
    case Touch(id, now) =>
      if id in w.requests && w.requests[id].Holding? && w.requests[id].pool < |w.pools| {
        ActKeepsInv(w, w.requests[id].pool, S.Begin(S.Touching(id, now)));
      }
    case Within(p, a) =>
      if p < |w.pools| && !a.Begin? {
        ActKeepsInv(w, p, a);
      }
    case Watch => PassesDoNotMatter(w, w.passes + [w.table.Values]);
    case Reap(pass, p, now, hardTimeout) =>
      if pass < |w.passes| && p in w.passes[pass] && p < |w.pools| {
        ActKeepsInv(w, p, S.Begin(S.Reaping(now, hardTimeout)));
        PassesDoNotMatter(Acting(w, p, S.Begin(S.Reaping(now, hardTimeout))), w.passes[pass := w.passes[pass] - {p}]);
      }
  }

  lemma {:induction false} PassesDoNotMatter(w: World, passes: seq<set<nat>>)
    requires Inv(w)
    ensures Inv(w.(passes := passes))
  {
    hide PhaseOk, PoolOk;
  }

  lemma {:induction false} OnwardKeepsInv(w: World, events: seq<Event>)
    requires Inv(w)
    ensures Inv(Onward(w, events))
  {
    hide Inv, Next;
    if |events| > 0 {
      OnwardKeepsInv(w, events[..|events| - 1]);
      NextKeepsInv(Onward(w, events[..|events| - 1]), events[|events| - 1]);
    }
  }

  lemma {:induction false} LiveIsOk(events: seq<Event>)
    ensures Inv(Live(events))
  {
    OnwardKeepsInv(World([], map[], map[], []), events);
  }
}
