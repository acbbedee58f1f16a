/** The lock-free capacity pool of `router/internal/capacity/pool.go`, one atomic operation a step.

    Any number of callers run `Reserve`, `Release`, `ReapLeases` and `Touch` at once.  A caller is a
    thread that stands before its next atomic operation: a load or compare-and-swap of the counter, a
    section under the mutex, or one decrement.  Nothing else is assumed about how threads interleave. */
module PoolSteps {

  type Id = string

  datatype Lease = Lease(startedAt: int, lastActivity: int)

  datatype Thread =
    | Reserving(id: Id)            // Reserve, before the load
    | Loaded(id: Id, seen: int)    // Reserve, before the compare-and-swap
    | Counted(id: Id)              // Reserve, swapped but the lease is not in the map yet
    | Reserved(id: Id)
    | Refused(id: Id)
    | Releasing(id: Id)            // Release, before its mutex section
    | Reaping(now: int, hardTimeout: int)
    | Owing(ids: set<Id>)          // leases deleted, their decrements still to do
    | Touching(id: Id, now: int)
    | Finished

  /** `taken`, `returned` and `lost` are history: the increments and the decrements made for each lease
      id, and the leases that an insert under the same id overwrote. */
  datatype State = State(
    capacity: int,
    counter: int,
    leases: map<Id, Lease>,
    threads: seq<Thread>,
    taken: multiset<Id>,
    returned: multiset<Id>,
    lost: multiset<Id>)

  datatype Action =
    | Begin(call: Thread)
    | Load(tid: nat)
    | Cas(tid: nat)
    | Insert(tid: nat, now: int)
    | Remove(tid: nat)
    | Reap(tid: nat)
    | Decrement(tid: nat, id: Id)
    | Touch(tid: nat)

  predicate IsCall(t: Thread) {
    t.Reserving? || t.Releasing? || t.Reaping? || t.Touching?
  }

  function Init(staticCapacity: int): State {
    State(if staticCapacity < 1 then 1 else staticCapacity, 0, map[], [], multiset{}, multiset{}, multiset{})
  }

  /** The leases the reaper evicts: last active before `now - hardTimeout`, none when reaping is off. */
  function Stale(leases: map<Id, Lease>, now: int, hardTimeout: int): set<Id> {
    if hardTimeout <= 0 then {}
    else set id | id in leases && leases[id].lastActivity < now - hardTimeout
  }

  function Owe(ids: set<Id>): Thread {
    if ids == {} then Finished else Owing(ids)
  }

  /** One atomic operation.  An action that does not fit what its thread is about to do changes nothing. */
  function Step(s: State, a: Action): State {
    match a
    case Begin(call) =>
      if IsCall(call) then s.(threads := s.threads + [call]) else s
    case Load(tid) =>
      if tid < |s.threads| && s.threads[tid].Reserving? then
        var id := s.threads[tid].id;
        s.(threads := s.threads[tid := if s.counter >= s.capacity then Refused(id) else Loaded(id, s.counter)])
      else s
    case Cas(tid) =>
      if tid < |s.threads| && s.threads[tid].Loaded? then
        var id := s.threads[tid].id;
        if s.counter == s.threads[tid].seen then
          s.(counter := s.counter + 1, threads := s.threads[tid := Counted(id)], taken := s.taken + multiset{id})
        else
          s.(threads := s.threads[tid := Reserving(id)])
      else s
    case Insert(tid, now) =>
      if tid < |s.threads| && s.threads[tid].Counted? then
        var id := s.threads[tid].id;
        s.(leases := s.leases[id := Lease(now, now)],
           threads := s.threads[tid := Reserved(id)],
           lost := if id in s.leases then s.lost + multiset{id} else s.lost)
      else s
    case Remove(tid) =>
      if tid < |s.threads| && s.threads[tid].Releasing? then
        var id := s.threads[tid].id;
        if id in s.leases then
          s.(leases := s.leases - {id}, threads := s.threads[tid := Owing({id})])
        else
          s.(threads := s.threads[tid := Finished])
      else s
    case Reap(tid) =>
      if tid < |s.threads| && s.threads[tid].Reaping? then
        var stale := Stale(s.leases, s.threads[tid].now, s.threads[tid].hardTimeout);
        s.(leases := s.leases - stale, threads := s.threads[tid := Owe(stale)])
      else s
    case Decrement(tid, id) =>
      if tid < |s.threads| && s.threads[tid].Owing? && id in s.threads[tid].ids then
        s.(counter := s.counter - 1,
           threads := s.threads[tid := Owe(s.threads[tid].ids - {id})],
           returned := s.returned + multiset{id})
      else s
    case Touch(tid) =>
      if tid < |s.threads| && s.threads[tid].Touching? then
        var t := s.threads[tid];
        s.(leases := if t.id in s.leases then s.leases[t.id := s.leases[t.id].(lastActivity := t.now)] else s.leases,
           threads := s.threads[tid := Finished])
      else s
  }

  function Run(s: State, actions: seq<Action>): State {
    if |actions| == 0 then s
    else Step(Run(s, actions[..|actions| - 1]), actions[|actions| - 1])
  }

  // ---------------------------------------------------------------- where the slots are

  /** The slots a thread has between the counter and the map. */
  function Held(t: Thread): set<Id> {
    match t
    case Counted(id) => {id}
    case Owing(ids) => ids
    case _ => {}
  }

  function HeldFor(t: Thread, id: Id): nat {
    if id in Held(t) then 1 else 0
  }

  function InTransit(threads: seq<Thread>): nat {
    if |threads| == 0 then 0
    else InTransit(threads[..|threads| - 1]) + |Held(threads[|threads| - 1])|
  }

  function InTransitFor(threads: seq<Thread>, id: Id): nat {
    if |threads| == 0 then 0
    else InTransitFor(threads[..|threads| - 1], id) + HeldFor(threads[|threads| - 1], id)
  }

  lemma {:induction false} TransitUpdate(threads: seq<Thread>, i: nat, t: Thread)
    requires i < |threads|
    ensures InTransit(threads[i := t]) == InTransit(threads) - |Held(threads[i])| + |Held(t)|
    decreases |threads|
  {
    var n, updated := |threads| - 1, threads[i := t];
    if i == n {
      assert updated[..n] == threads[..n];
    } else {
      TransitUpdate(threads[..n], i, t);
      assert updated[..n] == threads[..n][i := t];
    }
  }

  lemma {:induction false} TransitForUpdate(threads: seq<Thread>, i: nat, t: Thread, id: Id)
    requires i < |threads|
    ensures InTransitFor(threads[i := t], id) == InTransitFor(threads, id) - HeldFor(threads[i], id) + HeldFor(t, id)
    decreases |threads|
  {
    var n, updated := |threads| - 1, threads[i := t];
    if i == n {
      assert updated[..n] == threads[..n];
    } else {
      TransitForUpdate(threads[..n], i, t, id);
      assert updated[..n] == threads[..n][i := t];
    }
  }

  lemma {:induction false} TransitAppend(threads: seq<Thread>, t: Thread)
    requires IsCall(t)
    ensures InTransit(threads + [t]) == InTransit(threads)
    ensures forall id :: InTransitFor(threads + [t], id) == InTransitFor(threads, id)
  {
    assert (threads + [t])[..|threads|] == threads;
  }

  lemma {:induction false} TransitHas(threads: seq<Thread>, i: nat, id: Id)
    requires i < |threads|
    ensures HeldFor(threads[i], id) <= InTransitFor(threads, id)
    decreases |threads|
  {
    if i < |threads| - 1 {
      TransitHas(threads[..|threads| - 1], i, id);
    }
  }

  // ---------------------------------------------------------------- the invariant

  /** Every slot counted is leased, in some thread's hands, or lost to an insert that overwrote its lease. */
  ghost predicate Inv(s: State) {
    && s.counter == |s.leases| + InTransit(s.threads) + |s.lost|
    && s.counter <= s.capacity
    && forall i :: 0 <= i < |s.threads| && s.threads[i].Loaded? ==> s.threads[i].seen < s.capacity
  }

  /** The same account, for one lease id: every increment for it is in exactly one place. */
  ghost predicate AccountFor(s: State, id: Id) {
    s.taken[id] == s.returned[id] + Leased(s, id) + InTransitFor(s.threads, id) + s.lost[id]
  }

  function Leased(s: State, id: Id): nat {
    if id in s.leases then 1 else 0
  }

  lemma {:induction false} MapRemove(m: map<Id, Lease>, ids: set<Id>)
    requires ids <= m.Keys
    ensures |m - ids| == |m| - |ids|
  {
    assert (m - ids).Keys == m.Keys - ids;
    assert |m.Keys| == |m|;
    assert |(m - ids).Keys| == |m - ids|;
  }

  lemma {:induction false} MapInsert(m: map<Id, Lease>, id: Id, lease: Lease)
    ensures |m[id := lease]| == if id in m then |m| else |m| + 1
  {
    assert m[id := lease].Keys == m.Keys + {id};
    assert |m.Keys| == |m|;
    assert |m[id := lease].Keys| == |m[id := lease]|;
  }

  /** One thread moves from `t` to `t'`: the account is kept when its own slots, the leases and the lost slots
      together change as the counter does. */
  lemma {:induction false} InvAfter(s: State, s': State, tid: nat, t': Thread)
    requires Inv(s) && tid < |s.threads| && s'.threads == s.threads[tid := t']
    requires s'.counter <= s'.capacity == s.capacity
    requires s'.counter - |s'.leases| - |s'.lost| - |Held(t')|
          == s.counter - |s.leases| - |s.lost| - |Held(s.threads[tid])|
    requires t'.Loaded? ==> t'.seen < s.capacity
    ensures Inv(s')
  {
    TransitUpdate(s.threads, tid, t');
  }

  lemma {:induction false} OweHeld(ids: set<Id>)
    ensures Held(Owe(ids)) == ids && !Owe(ids).Loaded?
  {
  }

  lemma {:induction false} LoadKeepsInv(s: State, tid: nat)
    requires Inv(s) && tid < |s.threads| && s.threads[tid].Reserving?
    ensures Inv(Step(s, Load(tid)))
  {
    InvAfter(s, Step(s, Load(tid)), tid, Step(s, Load(tid)).threads[tid]);
  }

  lemma {:induction false} CasKeepsInv(s: State, tid: nat)
    requires Inv(s) && tid < |s.threads| && s.threads[tid].Loaded?
    ensures Inv(Step(s, Cas(tid)))
  {
    var t' := if s.counter == s.threads[tid].seen then Counted(s.threads[tid].id) else Reserving(s.threads[tid].id);
    InvAfter(s, Step(s, Cas(tid)), tid, t');
  }

  lemma {:induction false} InsertKeepsInv(s: State, tid: nat, now: int)
    requires Inv(s) && tid < |s.threads| && s.threads[tid].Counted?
    ensures Inv(Step(s, Insert(tid, now)))
  {
    var id := s.threads[tid].id;
    MapInsert(s.leases, id, Lease(now, now));
    InvAfter(s, Step(s, Insert(tid, now)), tid, Reserved(id));
  }

  lemma {:induction false} RemoveKeepsInv(s: State, tid: nat)
    requires Inv(s) && tid < |s.threads| && s.threads[tid].Releasing?
    ensures Inv(Step(s, Remove(tid)))
  {
    var id := s.threads[tid].id;
    if id in s.leases {
      MapRemove(s.leases, {id});
      InvAfter(s, Step(s, Remove(tid)), tid, Owing({id}));
    } else {
      InvAfter(s, Step(s, Remove(tid)), tid, Finished);
    }
  }

  lemma {:induction false} ReapKeepsInv(s: State, tid: nat)
    requires Inv(s) && tid < |s.threads| && s.threads[tid].Reaping?
    ensures Inv(Step(s, Reap(tid)))
  {
    var stale := Stale(s.leases, s.threads[tid].now, s.threads[tid].hardTimeout);
    MapRemove(s.leases, stale);
    OweHeld(stale);
    InvAfter(s, Step(s, Reap(tid)), tid, Owe(stale));
  }

  lemma {:induction false} DecrementKeepsInv(s: State, tid: nat, id: Id)
    requires Inv(s) && tid < |s.threads| && s.threads[tid].Owing? && id in s.threads[tid].ids
    ensures Inv(Step(s, Decrement(tid, id)))
  {
    var ids := s.threads[tid].ids;
    OweHeld(ids - {id});
    InvAfter(s, Step(s, Decrement(tid, id)), tid, Owe(ids - {id}));
  }

  lemma {:induction false} TouchKeepsInv(s: State, tid: nat)
    requires Inv(s) && tid < |s.threads| && s.threads[tid].Touching?
    ensures Inv(Step(s, Touch(tid)))
  {
    var id, s' := s.threads[tid].id, Step(s, Touch(tid));
    if id in s.leases {
      MapInsert(s.leases, id, s'.leases[id]);
    }
    InvAfter(s, s', tid, Finished);
  }

  /** The thread an action belongs to is where that action is its next operation. */
  predicate Fits(s: State, a: Action) {
    match a
    case Begin(call) => IsCall(call)
    case Load(tid) => tid < |s.threads| && s.threads[tid].Reserving?
    case Cas(tid) => tid < |s.threads| && s.threads[tid].Loaded?
    case Insert(tid, _) => tid < |s.threads| && s.threads[tid].Counted?
    case Remove(tid) => tid < |s.threads| && s.threads[tid].Releasing?
    case Reap(tid) => tid < |s.threads| && s.threads[tid].Reaping?
    case Decrement(tid, id) => tid < |s.threads| && s.threads[tid].Owing? && id in s.threads[tid].ids
    case Touch(tid) => tid < |s.threads| && s.threads[tid].Touching?
  }

  lemma {:induction false} UnfitIsNoStep(s: State, a: Action)
    requires !Fits(s, a)
    ensures Step(s, a) == s
  {
  }

  lemma {:induction false} StepKeepsInv(s: State, a: Action)
    requires Inv(s)
    ensures Inv(Step(s, a))
  {
    if !Fits(s, a) {
      UnfitIsNoStep(s, a);
    } else {
      match a
      case Begin(call) => TransitAppend(s.threads, call);
      case Load(tid) => LoadKeepsInv(s, tid);
      case Cas(tid) => CasKeepsInv(s, tid);
      case Insert(tid, now) => InsertKeepsInv(s, tid, now);
      case Remove(tid) => RemoveKeepsInv(s, tid);
      case Reap(tid) => ReapKeepsInv(s, tid);
      case Decrement(tid, id) => DecrementKeepsInv(s, tid, id);
      case Touch(tid) => TouchKeepsInv(s, tid);
    }
  }

  lemma {:induction false} AccountAfter(s: State, s': State, tid: nat, t': Thread, id: Id)
    requires AccountFor(s, id) && tid < |s.threads| && s'.threads == s.threads[tid := t']
    requires s'.taken[id] - s'.returned[id] - Leased(s', id) - s'.lost[id] - HeldFor(t', id)
          == s.taken[id] - s.returned[id] - Leased(s, id) - s.lost[id] - HeldFor(s.threads[tid], id)
    ensures AccountFor(s', id)
  {
    TransitForUpdate(s.threads, tid, t', id);
  }

  lemma {:induction false} StepKeepsAccount(s: State, a: Action, id: Id)
    requires AccountFor(s, id)
    ensures AccountFor(Step(s, a), id)
  {
    if !Fits(s, a) {
      UnfitIsNoStep(s, a);
    } else if a.Begin? {
      TransitAppend(s.threads, a.call);
    } else if a.Load? || a.Cas? || a.Touch? {
      CounterKeepsAccount(s, a, id);
    } else if a.Insert? || a.Remove? {
      LeaseKeepsAccount(s, a, id);
    } else {
      OwingKeepsAccount(s, a, id);
    }
  }

  lemma {:induction false} CounterKeepsAccount(s: State, a: Action, id: Id)
    requires AccountFor(s, id) && Fits(s, a) && (a.Load? || a.Cas? || a.Touch?)
    ensures AccountFor(Step(s, a), id)
  {
    hide AccountFor;
    AccountAfter(s, Step(s, a), a.tid, Step(s, a).threads[a.tid], id);
  }

  lemma {:induction false} LeaseKeepsAccount(s: State, a: Action, id: Id)
    requires AccountFor(s, id) && Fits(s, a) && (a.Insert? || a.Remove?)
    ensures AccountFor(Step(s, a), id)
  {
    hide AccountFor;
    AccountAfter(s, Step(s, a), a.tid, Step(s, a).threads[a.tid], id);
  }

  lemma {:induction false} OwingKeepsAccount(s: State, a: Action, id: Id)
    requires AccountFor(s, id) && Fits(s, a) && (a.Reap? || a.Decrement?)
    ensures AccountFor(Step(s, a), id)
  {
    hide AccountFor;
    var ids := if a.Reap? then Stale(s.leases, s.threads[a.tid].now, s.threads[a.tid].hardTimeout)
               else s.threads[a.tid].ids - {a.id};
    OweHeld(ids);
    AccountAfter(s, Step(s, a), a.tid, Owe(ids), id);
  }

  lemma {:induction false} RunKeepsInv(staticCapacity: int, actions: seq<Action>)
    ensures Inv(Run(Init(staticCapacity), actions))
    ensures Run(Init(staticCapacity), actions).capacity == Init(staticCapacity).capacity
    decreases |actions|
  {
    if |actions| > 0 {
      RunKeepsInv(staticCapacity, actions[..|actions| - 1]);
      StepKeepsInv(Run(Init(staticCapacity), actions[..|actions| - 1]), actions[|actions| - 1]);
    }
  }

  lemma {:induction false} RunKeepsAccount(staticCapacity: int, actions: seq<Action>, id: Id)
    ensures AccountFor(Run(Init(staticCapacity), actions), id)
    decreases |actions|
  {
    if |actions| > 0 {
      RunKeepsAccount(staticCapacity, actions[..|actions| - 1], id);
      StepKeepsAccount(Run(Init(staticCapacity), actions[..|actions| - 1]), actions[|actions| - 1], id);
    }
  }

  // ---------------------------------------------------------------- conservation

  /** In every interleaving the counter stays within the capacity and is the number of leases, plus the
      slots in transit, plus the slots lost to overwritten leases.  So counter, map and transit agree
      exactly when no insert ever overwrote a live lease. */
  lemma {:induction false} Conservation(staticCapacity: int, actions: seq<Action>)
    ensures var s := Run(Init(staticCapacity), actions);
      && 0 <= s.counter <= s.capacity
      && s.counter == |s.leases| + InTransit(s.threads) + |s.lost|
      && (s.counter == |s.leases| + InTransit(s.threads) <==> s.lost == multiset{})
  {
    RunKeepsInv(staticCapacity, actions);
  }

  predicate AtRest(t: Thread) {
    t.Reserved? || t.Refused? || t.Finished?
  }

  predicate Quiescent(s: State) {
    forall i :: 0 <= i < |s.threads| ==> AtRest(s.threads[i])
  }

  lemma {:induction false} RestingHoldNothing(threads: seq<Thread>)
    requires forall i :: 0 <= i < |threads| ==> AtRest(threads[i])
    ensures InTransit(threads) == 0
    ensures forall id :: InTransitFor(threads, id) == 0
    decreases |threads|
  {
    if |threads| > 0 {
      RestingHoldNothing(threads[..|threads| - 1]);
    }
  }

  /** With nobody at work and every lease gone, what the counter still shows is what was lost: it drains to
      zero if and only if no lease was overwritten. */
  lemma {:induction false} Drained(staticCapacity: int, actions: seq<Action>)
    requires Quiescent(Run(Init(staticCapacity), actions))
    requires Run(Init(staticCapacity), actions).leases == map[]
    ensures var s := Run(Init(staticCapacity), actions);
      && s.counter == |s.lost|
      && (s.counter == 0 <==> s.lost == multiset{})
      && forall id :: s.taken[id] == s.returned[id] + s.lost[id]
  {
    var s := Run(Init(staticCapacity), actions);
    RunKeepsInv(staticCapacity, actions);
    RestingHoldNothing(s.threads);
    forall id ensures s.taken[id] == s.returned[id] + s.lost[id] {
      RunKeepsAccount(staticCapacity, actions, id);
    }
  }

  // ---------------------------------------------------------------- distinct lease ids

  /** No two `Reserve` calls of the run use one lease id. */
  predicate DistinctIds(actions: seq<Action>) {
    forall i, j :: 0 <= i < j < |actions| && IsReserve(actions[i]) && IsReserve(actions[j])
      ==> actions[i].call.id != actions[j].call.id
  }

  predicate IsReserve(a: Action) {
    a.Begin? && a.call.Reserving?
  }

  predicate Called(actions: seq<Action>, id: Id) {
    exists i :: 0 <= i < |actions| && IsReserve(actions[i]) && actions[i].call.id == id
  }

  predicate IsReserver(t: Thread) {
    t.Reserving? || t.Loaded? || t.Counted? || t.Reserved? || t.Refused?
  }

  predicate NotCounted(t: Thread) {
    t.Reserving? || t.Loaded? || t.Refused?
  }

  /** One thread at most reserves under an id, and an increment for the id means that thread made it. */
  ghost predicate OneToken(s: State, actions: seq<Action>) {
    && (forall i, j :: 0 <= i < j < |s.threads| && IsReserver(s.threads[i]) && IsReserver(s.threads[j])
          ==> s.threads[i].id != s.threads[j].id)
    && (forall i :: 0 <= i < |s.threads| && IsReserver(s.threads[i]) ==> Called(actions, s.threads[i].id))
    && (forall i :: 0 <= i < |s.threads| && NotCounted(s.threads[i]) ==> s.taken[s.threads[i].id] == 0)
    && (forall id :: s.taken[id] <= 1)
    && (forall id :: s.taken[id] > 0 ==> Called(actions, id))
  }

  lemma {:induction false} CalledGrows(actions: seq<Action>, a: Action)
    ensures forall id :: Called(actions, id) ==> Called(actions + [a], id)
    ensures IsReserve(a) ==> Called(actions + [a], a.call.id)
    ensures IsReserve(a) && DistinctIds(actions + [a]) ==> !Called(actions, a.call.id)
    ensures DistinctIds(actions + [a]) ==> DistinctIds(actions)
  {
    var longer := actions + [a];
    assert longer[|actions|] == a;
    assert forall i :: 0 <= i < |actions| ==> longer[i] == actions[i];
  }

  /** What a step of a thread can do to its own place in the reservation of an id. */
  lemma {:induction false} ThreadStep(s: State, a: Action)
    requires !a.Begin? && a.tid < |s.threads|
    ensures var t := Step(s, a).threads[a.tid];
      && Step(s, a).threads == s.threads[a.tid := t]
      && (IsReserver(t) ==> IsReserver(s.threads[a.tid]) && t.id == s.threads[a.tid].id)
      && (NotCounted(t) ==> NotCounted(s.threads[a.tid]))
    ensures Step(s, a).taken == s.taken
      || (a.Cas? && s.threads[a.tid].Loaded? && Step(s, a).threads[a.tid] == Counted(s.threads[a.tid].id)
            && Step(s, a).taken == s.taken + multiset{s.threads[a.tid].id})
  {
  }

  lemma {:induction false} StepKeepsOneToken(s: State, actions: seq<Action>, a: Action)
    requires OneToken(s, actions) && DistinctIds(actions + [a])
    ensures OneToken(Step(s, a), actions + [a])
  {
    CalledGrows(actions, a);
    if a.Begin? {
      if IsCall(a.call) {
        OneTokenBegin(s, actions, a, Step(s, a));
      }
    } else if a.tid < |s.threads| {
      ThreadStep(s, a);
      hide Step;
      OneTokenUpdate(s, actions, a, Step(s, a));
    }
  }

  lemma {:induction false} OneTokenBegin(s: State, actions: seq<Action>, a: Action, s': State)
    requires OneToken(s, actions) && a.Begin? && (IsReserve(a) ==> !Called(actions, a.call.id))
    requires forall id :: Called(actions, id) ==> Called(actions + [a], id)
    requires IsReserve(a) ==> Called(actions + [a], a.call.id)
    requires IsCall(a.call) && s'.threads == s.threads + [a.call] && s'.taken == s.taken
    ensures OneToken(s', actions + [a])
  {
    hide Called;
  }

  lemma {:induction false} OneTokenUpdate(s: State, actions: seq<Action>, a: Action, s': State)
    requires OneToken(s, actions) && (forall id :: Called(actions, id) ==> Called(actions + [a], id))
    requires !a.Begin? && a.tid < |s.threads| == |s'.threads| && s'.threads == s.threads[a.tid := s'.threads[a.tid]]
    requires var t := s'.threads[a.tid];
      && (IsReserver(t) ==> IsReserver(s.threads[a.tid]) && t.id == s.threads[a.tid].id)
      && (NotCounted(t) ==> NotCounted(s.threads[a.tid]))
    requires s'.taken == s.taken
      || (s.threads[a.tid].Loaded? && s'.threads[a.tid] == Counted(s.threads[a.tid].id)
            && s'.taken == s.taken + multiset{s.threads[a.tid].id})
    ensures OneToken(s', actions + [a])
  {
    hide Called;
  }

  lemma {:induction false} RunKeepsOneToken(staticCapacity: int, actions: seq<Action>)
    requires DistinctIds(actions)
    ensures OneToken(Run(Init(staticCapacity), actions), actions)
    decreases |actions|
  {
    if |actions| > 0 {
      var before, a := actions[..|actions| - 1], actions[|actions| - 1];
      assert before + [a] == actions;
      CalledGrows(before, a);
      RunKeepsOneToken(staticCapacity, before);
      StepKeepsOneToken(Run(Init(staticCapacity), before), before, a);
    }
  }

  /** An insert is about to overwrite a live lease. */
  predicate Overwrites(s: State, a: Action) {
    a.Insert? && a.tid < |s.threads| && s.threads[a.tid].Counted? && s.threads[a.tid].id in s.leases
  }

  lemma {:induction false} NoOverwrite(s: State, a: Action)
    requires forall id :: AccountFor(s, id) && s.taken[id] <= 1
    ensures !Overwrites(s, a)
  {
    if a.Insert? && a.tid < |s.threads| && s.threads[a.tid].Counted? {
      var id := s.threads[a.tid].id;
      TransitHas(s.threads, a.tid, id);
      assert AccountFor(s, id);
      assert Leased(s, id) == 0;
    }
  }

  lemma {:induction false} RunLosesNothing(staticCapacity: int, actions: seq<Action>)
    requires DistinctIds(actions)
    ensures Run(Init(staticCapacity), actions).lost == multiset{}
    decreases |actions|
  {
    if |actions| > 0 {
      var before, a := actions[..|actions| - 1], actions[|actions| - 1];
      assert before + [a] == actions;
      CalledGrows(before, a);
      RunLosesNothing(staticCapacity, before);
      RunIsSound(staticCapacity, before);
      NoOverwrite(Run(Init(staticCapacity), before), a);
    }
  }

  lemma {:induction false} RunIsSound(staticCapacity: int, actions: seq<Action>)
    requires DistinctIds(actions)
    ensures var s := Run(Init(staticCapacity), actions);
      forall id :: AccountFor(s, id) && s.taken[id] <= 1
  {
    RunKeepsOneToken(staticCapacity, actions);
    forall id ensures AccountFor(Run(Init(staticCapacity), actions), id) {
      RunKeepsAccount(staticCapacity, actions, id);
    }
  }

  /** Exactly once: with distinct ids every id is counted at most once and given back at most once, however
      releases and reaps race, and nothing is lost; a counted id is in exactly one of three places. */
  lemma {:induction false} ExactlyOnce(staticCapacity: int, actions: seq<Action>, id: Id)
    requires DistinctIds(actions)
    ensures var s := Run(Init(staticCapacity), actions);
      && s.returned[id] <= s.taken[id] <= 1
      && s.taken[id] == s.returned[id] + Leased(s, id) + InTransitFor(s.threads, id)
      && s.lost == multiset{}
      && s.counter == |s.leases| + InTransit(s.threads)
  {
    RunIsSound(staticCapacity, actions);
    RunLosesNothing(staticCapacity, actions);
    RunKeepsInv(staticCapacity, actions);
    assert AccountFor(Run(Init(staticCapacity), actions), id);
  }

  ghost predicate Owed(s: State, id: Id) {
    exists i :: 0 <= i < |s.threads| && s.threads[i].Owing? && id in s.threads[i].ids
  }

  /** Where the one slot of a lease id stands: 0 not taken, 1 counted, 2 leased, 3 owed, 4 given back. */
  ghost function Phase(s: State, id: Id): nat {
    if s.returned[id] > 0 then 4
    else if Owed(s, id) then 3
    else if id in s.leases then 2
    else if s.taken[id] > 0 then 1
    else 0
  }

  /** A step never moves the slot of an id backwards. */
  lemma {:induction false} StepMovesForward(s: State, a: Action, id: Id)
    requires AccountFor(s, id) && s.taken[id] <= 1
    ensures Phase(s, id) <= Phase(Step(s, a), id)
  {
    var s' := Step(s, a);
    OnlyGrow(s, a, id);
    if Owed(s, id) {
      var i :| 0 <= i < |s.threads| && s.threads[i].Owing? && id in s.threads[i].ids;
      OwedStays(s, a, i, id);
    } else if id in s.leases {
      LeasedMoves(s, a, id);
    }
  }

  lemma {:induction false} OnlyGrow(s: State, a: Action, id: Id)
    ensures s.taken[id] <= Step(s, a).taken[id] && s.returned[id] <= Step(s, a).returned[id]
  {
  }

  lemma {:induction false} OwedStays(s: State, a: Action, i: nat, id: Id)
    requires i < |s.threads| && s.threads[i].Owing? && id in s.threads[i].ids
    ensures Owed(Step(s, a), id) || Step(s, a).returned[id] > 0
  {
    if a.Decrement? && a.tid == i && a.id in s.threads[i].ids {
      if a.id != id {
        assert id in s.threads[i].ids - {a.id};
        assert Step(s, a).threads[i] == Owing(s.threads[i].ids - {a.id});
      }
    } else {
      assert Step(s, a).threads[i] == s.threads[i];
    }
  }

  lemma {:induction false} LeasedMoves(s: State, a: Action, id: Id)
    requires id in s.leases
    ensures id in Step(s, a).leases || Owed(Step(s, a), id)
  {
    var s' := Step(s, a);
    if id !in s'.leases {
      assert a.Remove? || a.Reap?;
      assert s'.threads[a.tid].Owing? && id in s'.threads[a.tid].ids;
    }
  }

  /** Over whole runs the slot of an id only moves forward: once owed it is never leased again, and once
      given back it stays given back. */
  lemma {:induction false} SlotsOnlyMoveForward(staticCapacity: int, actions: seq<Action>, n: nat, id: Id)
    requires n <= |actions| && DistinctIds(actions)
    ensures Phase(Run(Init(staticCapacity), actions[..n]), id) <= Phase(Run(Init(staticCapacity), actions), id)
    decreases |actions|
  {
    if n == |actions| {
      assert actions[..n] == actions;
    } else {
      var before, a := actions[..|actions| - 1], actions[|actions| - 1];
      assert before[..n] == actions[..n] && before + [a] == actions;
      CalledGrows(before, a);
      SlotsOnlyMoveForward(staticCapacity, before, n, id);
      RunIsSound(staticCapacity, before);
      var s := Run(Init(staticCapacity), before);
      assert AccountFor(s, id);
      StepMovesForward(s, a, id);
    }
  }

  /** The mutex section of a `Release` leaves a recorded lease owed, or finds it already owed or returned. */
  lemma {:induction false} RemoveOwes(s: State, tid: nat, id: Id)
    requires tid < |s.threads| && s.threads[tid] == Releasing(id) && Phase(s, id) >= 2
    requires AccountFor(s, id) && s.taken[id] <= 1
    ensures Phase(Step(s, Remove(tid)), id) >= 3
  {
    StepMovesForward(s, Remove(tid), id);
    var s' := Step(s, Remove(tid));
    if Phase(s, id) == 2 {
      assert s'.threads[tid].Owing? && id in s'.threads[tid].ids;
    }
  }

  /** Once the slot of an id is owed, by a release or by the reaper, then whenever nobody is at work it has been
      given back exactly once: extra releases and further reaps add nothing and take nothing. */
  lemma {:induction false} OwedReturnsOnce(staticCapacity: int, actions: seq<Action>, n: nat, id: Id)
    requires n <= |actions| && DistinctIds(actions)
    requires Phase(Run(Init(staticCapacity), actions[..n]), id) >= 3
    requires Quiescent(Run(Init(staticCapacity), actions))
    ensures Run(Init(staticCapacity), actions).returned[id] == 1
  {
    SlotsOnlyMoveForward(staticCapacity, actions, n, id);
    ExactlyOnce(staticCapacity, actions, id);
  }

  /** So it is for a recorded lease once a `Release` of it has passed its mutex section. */
  lemma {:induction false} ReleaseReturnsOnce(staticCapacity: int, actions: seq<Action>, n: nat, tid: nat, id: Id)
    requires n < |actions| && DistinctIds(actions) && actions[n] == Remove(tid)
    requires var s := Run(Init(staticCapacity), actions[..n]);
      tid < |s.threads| && s.threads[tid] == Releasing(id) && Phase(s, id) >= 2
    requires Quiescent(Run(Init(staticCapacity), actions))
    ensures Run(Init(staticCapacity), actions).returned[id] == 1
  {
    var s := Run(Init(staticCapacity), actions[..n]);
    DistinctPrefix(actions, n);
    RunIsSound(staticCapacity, actions[..n]);
    assert AccountFor(s, id);
    RemoveOwes(s, tid, id);
    RunOneMore(staticCapacity, actions, n);
    OwedReturnsOnce(staticCapacity, actions, n + 1, id);
  }

  /** And for a lease once the reaper has evicted it. */
  lemma {:induction false} EvictionReturnsOnce(staticCapacity: int, actions: seq<Action>, n: nat, tid: nat, id: Id)
    requires n < |actions| && DistinctIds(actions) && actions[n] == Reap(tid)
    requires var s := Run(Init(staticCapacity), actions[..n]);
      && tid < |s.threads| && s.threads[tid].Reaping?
      && id in Stale(s.leases, s.threads[tid].now, s.threads[tid].hardTimeout)
    requires Quiescent(Run(Init(staticCapacity), actions))
    ensures Run(Init(staticCapacity), actions).returned[id] == 1
  {
    var s := Run(Init(staticCapacity), actions[..n]);
    DistinctPrefix(actions, n);
    ExactlyOnce(staticCapacity, actions[..n], id);
    var s' := Step(s, Reap(tid));
    assert s'.threads[tid].Owing? && id in s'.threads[tid].ids;
    RunOneMore(staticCapacity, actions, n);
    OwedReturnsOnce(staticCapacity, actions, n + 1, id);
  }

  lemma {:induction false} DistinctPrefix(actions: seq<Action>, n: nat)
    requires n <= |actions| && DistinctIds(actions)
    ensures DistinctIds(actions[..n])
  {
  }

  lemma {:induction false} RunOneMore(staticCapacity: int, actions: seq<Action>, n: nat)
    requires n < |actions|
    ensures Run(Init(staticCapacity), actions[..n + 1]) == Step(Run(Init(staticCapacity), actions[..n]), actions[n])
  {
    assert actions[..n + 1][..n] == actions[..n];
  }

  // ---------------------------------------------------------------- runs put together

  lemma {:induction false} RunAppend(s: State, first: seq<Action>, rest: seq<Action>)
    ensures Run(s, first + rest) == Run(Run(s, first), rest)
    decreases |rest|
  {
    if |rest| == 0 {
      assert first + rest == first;
    } else {
      RunAppend(s, first, rest[..|rest| - 1]);
      assert (first + rest)[..|first + rest| - 1] == first + rest[..|rest| - 1];
    }
  }

  lemma {:induction false} RunFour(s: State, actions: seq<Action>)
    requires |actions| == 4
    ensures Run(s, actions) == Step(Step(Step(Step(s, actions[0]), actions[1]), actions[2]), actions[3])
  {
    RunThree(s, actions[..3]);
  }

  lemma {:induction false} RunThree(s: State, actions: seq<Action>)
    requires |actions| == 3
    ensures Run(s, actions) == Step(Step(Step(s, actions[0]), actions[1]), actions[2])
  {
    hide Step;
    var two, one := actions[..2], actions[..1];
    assert two[..1] == one && one[..0] == [];
    assert Run(s, one) == Step(Run(s, []), actions[0]);
    assert Run(s, two) == Step(Run(s, one), actions[1]);
  }

  // ---------------------------------------------------------------- progress

  /** The swaps of `tid` that fail along a run. */
  function FailedSwaps(s: State, actions: seq<Action>, tid: nat): nat {
    if |actions| == 0 then 0
    else
      var before := Run(s, actions[..|actions| - 1]);
      var a := actions[|actions| - 1];
      FailedSwaps(s, actions[..|actions| - 1], tid)
      + if SwapFails(before, a, tid) then 1 else 0
  }

  predicate SwapFails(s: State, a: Action, tid: nat) {
    a == Cas(tid) && tid < |s.threads| && s.threads[tid].Loaded? && s.counter != s.threads[tid].seen
  }

  predicate ByOther(a: Action, tid: nat) {
    match a
    case Begin(_) => true
    case Load(t) => t != tid
    case Cas(t) => t != tid
    case Insert(t, _) => t != tid
    case Remove(t) => t != tid
    case Reap(t) => t != tid
    case Decrement(t, _) => t != tid
    case Touch(t) => t != tid
  }

  /** The steps of threads other than `tid` that change the counter along a run. */
  function ChangesByOthers(s: State, actions: seq<Action>, tid: nat): nat {
    if |actions| == 0 then 0
    else
      var before := Run(s, actions[..|actions| - 1]);
      var a := actions[|actions| - 1];
      ChangesByOthers(s, actions[..|actions| - 1], tid)
      + if ByOther(a, tid) && Step(before, a).counter != before.counter then 1 else 0
  }

  /** Lock freedom: however the run goes on after a `Reserve` call starts, each failed swap of the call is paid
      for by a counter change of some other thread. */
  lemma {:induction false} FailedSwapsArePaidFor(s: State, actions: seq<Action>, tid: nat)
    requires tid < |s.threads| && s.threads[tid].Reserving?
    ensures FailedSwaps(s, actions, tid) <= ChangesByOthers(s, actions, tid)
  {
    PaidSoFar(s, actions, tid);
  }

  /** The call still runs or is over, and a swap that is bound to fail is already paid for. */
  ghost predicate Paid(s: State, tid: nat, failed: nat, changes: nat) {
    && tid < |s.threads|
    && IsReserver(s.threads[tid])
    && failed <= changes
    && (s.threads[tid].Loaded? && s.counter != s.threads[tid].seen ==> failed < changes)
  }

  lemma {:induction false} PaidSoFar(s: State, actions: seq<Action>, tid: nat)
    requires tid < |s.threads| && s.threads[tid].Reserving?
    ensures Paid(Run(s, actions), tid, FailedSwaps(s, actions, tid), ChangesByOthers(s, actions, tid))
    decreases |actions|
  {
    if |actions| > 0 {
      hide Step, Paid;
      var before, a := actions[..|actions| - 1], actions[|actions| - 1];
      PaidSoFar(s, before, tid);
      if ByOther(a, tid) {
        PaidByOther(Run(s, before), a, tid, FailedSwaps(s, before, tid), ChangesByOthers(s, before, tid));
      } else {
        PaidByOwn(Run(s, before), a, tid, FailedSwaps(s, before, tid), ChangesByOthers(s, before, tid));
      }
    } else {
      assert Run(s, actions) == s;
    }
  }

  lemma {:induction false} PaidByOther(s: State, a: Action, tid: nat, failed: nat, changes: nat)
    requires Paid(s, tid, failed, changes) && ByOther(a, tid)
    ensures Paid(Step(s, a), tid, failed, changes + if Step(s, a).counter != s.counter then 1 else 0)
  {
    if !a.Begin? && a.tid < |s.threads| {
      ThreadStep(s, a);
    }
  }

  lemma {:induction false} PaidByOwn(s: State, a: Action, tid: nat, failed: nat, changes: nat)
    requires Paid(s, tid, failed, changes) && !ByOther(a, tid)
    ensures Paid(Step(s, a), tid, failed + if SwapFails(s, a, tid) then 1 else 0, changes)
  {
  }

  /** A refused `Reserve` found the pool exactly full at its last load, and a full pool always refuses. */
  lemma {:induction false} RefusedExactlyWhenFull(staticCapacity: int, actions: seq<Action>, tid: nat)
    requires var s := Run(Init(staticCapacity), actions); tid < |s.threads| && s.threads[tid].Reserving?
    ensures var s := Run(Init(staticCapacity), actions);
      Step(s, Load(tid)).threads[tid].Refused? <==> s.counter == s.capacity
  {
    RunKeepsInv(staticCapacity, actions);
  }
}
