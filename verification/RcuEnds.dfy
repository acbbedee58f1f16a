/** No request of the router is ever stuck: from wherever it is, it can be served and leave, or be turned away, by its
    own steps alone. */
module RcuEnds {
  import S = PoolSteps
  import opened Rcu
  import opened RcuRuns
  import opened RcuSwaps

  predicate Ended(ph: Phase) {
    ph.TurnedAway? || ph.Left?
  }

  /** How far the thread of a request is from the end of its call, the counter standing still. */
  function StepsLeft(s: S.State, tid: nat): nat {
    if tid >= |s.threads| then 0
    else
      match s.threads[tid]
      case Reserving(_) => 3
      case Loaded(_, seen) => if seen == s.counter then 2 else 4
      case Counted(_) => 1
      case Releasing(_) => 2
      case Owing(ids) => |ids|
      case _ => 0
  }

  /** How far the request is from its end, at most. */
  function ToGo(w: World, id: Id): nat
    requires id in w.requests
  {
    match w.requests[id]
    case Arrived => 6
    case Choosing(rest) => 10 * |rest| + 5
    case Trying(p, tid, rest) => 10 * |rest| + 6 + if p < |w.pools| then StepsLeft(StateOf(w.pools[p]), tid) else 0
    case Holding(_) => 4
    case Leaving(p, tid) => 1 + if p < |w.pools| then StepsLeft(StateOf(w.pools[p]), tid) else 0
    case Left(_) => 0
    case TurnedAway => 0
  }

  /** Only this request has moved; the tables and the others are as they were. */
  predicate OthersStay(w: World, w': World, id: Id) {
    && id in w.requests && w'.requests.Keys == w.requests.Keys && w'.table == w.table && w'.passes == w.passes
    && forall other :: other in w.requests && other != id ==> w'.requests[other] == w.requests[other]
  }

  /** The request has a step that brings it nearer to its end. */
  lemma {:induction false} OwnStep(w: World, id: Id) returns (event: Event)
    requires Inv(w) && id in w.requests && !Ended(w.requests[id])
    ensures OthersStay(w, Next(w, event), id)
    ensures ToGo(Next(w, event), id) < ToGo(w, id)
  {
    assert PhaseOk(w.pools, id, w.requests[id]);
    match w.requests[id]
    case Arrived => event := View(id, []);
    case Choosing(_) =>
      event := Try(id);
      hide Inv;
      Tries(w, id);
    case Trying(p, tid, _) =>
      hide Inv;
      event := StepTrying(w, id);
    case Holding(p) =>
      event := Leave(id);
      hide Inv;
      Leaves(w, id);
    case Leaving(p, tid) =>
      hide Inv;
      event := StepLeaving(w, id);
  }

  lemma {:induction false} Tries(w: World, id: Id)
    requires id in w.requests && w.requests[id].Choosing? && PhaseOk(w.pools, id, w.requests[id])
    ensures OthersStay(w, Next(w, Try(id)), id) && ToGo(Next(w, Try(id)), id) < ToGo(w, id)
  {
    var candidates := w.requests[id].candidates;
    if candidates != [] {
      assert candidates[0] in candidates;
      ActedSteps(w.pools[candidates[0]], S.Begin(S.Reserving(id)));
      hide StateOf;
    }
  }

  lemma {:induction false} Leaves(w: World, id: Id)
    requires id in w.requests && w.requests[id].Holding? && w.requests[id].pool < |w.pools|
    ensures OthersStay(w, Next(w, Leave(id)), id) && ToGo(Next(w, Leave(id)), id) < ToGo(w, id)
  {
    ActedSteps(w.pools[w.requests[id].pool], S.Begin(S.Releasing(id)));
    hide StateOf;
  }

  /** The next step of a thread in `Reserve`, and what it comes to. */
  lemma {:induction false} ReserveGoesOn(s: S.State, tid: nat) returns (a: S.Action)
    requires tid < |s.threads| && Pending(s.threads[tid])
    ensures !a.Begin? && StepsLeft(S.Step(s, a), tid) < StepsLeft(s, tid)
  {
    a := match s.threads[tid]
         case Reserving(_) => S.Load(tid)
         case Loaded(_, _) => S.Cas(tid)
         case _ => S.Insert(tid, 0);
  }

  /** The next step of a thread in `Release`. */
  lemma {:induction false} ReleaseGoesOn(s: S.State, tid: nat) returns (a: S.Action)
    requires tid < |s.threads| && (s.threads[tid].Releasing? || (s.threads[tid].Owing? && s.threads[tid].ids != {}))
    ensures !a.Begin? && StepsLeft(S.Step(s, a), tid) < StepsLeft(s, tid)
  {
    if s.threads[tid].Releasing? {
      a := S.Remove(tid);
    } else {
      var id :| id in s.threads[tid].ids;
      a := S.Decrement(tid, id);
    }
  }

  lemma {:induction false} StepTrying(w: World, id: Id) returns (event: Event)
    requires id in w.requests && w.requests[id].Trying? && PhaseOk(w.pools, id, w.requests[id])
    ensures OthersStay(w, Next(w, event), id) && ToGo(Next(w, event), id) < ToGo(w, id)
  {
    var p, tid := w.requests[id].pool, w.requests[id].tid;
    if Pending(StateOf(w.pools[p]).threads[tid]) {
      var a := ReserveGoesOn(StateOf(w.pools[p]), tid);
      event := Within(p, a);
      hide StateOf, S.Step;
      ActsOn(w, id, p, tid, a);
    } else {
      event := Settle(id);
      assert ThreadOf(w, p, tid).Reserved? || ThreadOf(w, p, tid).Refused?;
      hide StateOf, ThreadOf;
    }
  }

  lemma {:induction false} StepLeaving(w: World, id: Id) returns (event: Event)
    requires id in w.requests && w.requests[id].Leaving? && PhaseOk(w.pools, id, w.requests[id])
    ensures OthersStay(w, Next(w, event), id) && ToGo(Next(w, event), id) < ToGo(w, id)
  {
    var p, tid := w.requests[id].pool, w.requests[id].tid;
    var pool := w.pools[p];
    if StateOf(pool).threads[tid].Finished? {
      event := Gone(id);
    } else {
      if StateOf(pool).threads[tid].Owing? {
        OwingOwes(pool.capacity, pool.history, tid);
      }
      var a := ReleaseGoesOn(StateOf(pool), tid);
      event := Within(p, a);
      hide StateOf, S.Step;
      ActsOn(w, id, p, tid, a);
    }
  }

  /** A step of the request's own thread is one of the request. */
  lemma {:induction false} ActsOn(w: World, id: Id, p: nat, tid: nat, a: S.Action)
    requires id in w.requests && p < |w.pools| && !a.Begin?
    requires w.requests[id].Trying? || w.requests[id].Leaving?
    requires w.requests[id].pool == p && w.requests[id].tid == tid
    requires StepsLeft(S.Step(StateOf(w.pools[p]), a), tid) < StepsLeft(StateOf(w.pools[p]), tid)
    ensures OthersStay(w, Next(w, Within(p, a)), id) && ToGo(Next(w, Within(p, a)), id) < ToGo(w, id)
  {
    ActedSteps(w.pools[p], a);
    hide StateOf, S.Step, StepsLeft;
  }

  /** A thread with decrements to do has at least one. */
  lemma {:induction false} OwingOwes(capacity: int, actions: seq<S.Action>, tid: nat)
    requires var s := S.Run(S.Init(capacity), actions); tid < |s.threads| && s.threads[tid].Owing?
    ensures S.Run(S.Init(capacity), actions).threads[tid].ids != {}
    decreases |actions|
  {
    var front, a := actions[..|actions| - 1], actions[|actions| - 1];
    var before := S.Run(S.Init(capacity), front);
    assert S.Run(S.Init(capacity), actions) == S.Step(before, a);
    hide S.Run;
    StepOwes(before, a, tid);
    hide S.Step;
    if tid < |before.threads| && before.threads[tid].Owing? {
      OwingOwes(capacity, front, tid);
    }
  }

  lemma {:induction false} StepOwes(s: S.State, a: S.Action, tid: nat)
    requires tid < |S.Step(s, a).threads| && S.Step(s, a).threads[tid].Owing?
    ensures S.Step(s, a).threads[tid].ids != {} ||
            (tid < |s.threads| && s.threads[tid] == S.Step(s, a).threads[tid])
  {
  }

  /** From any reachable world, however the requests stand and whatever is under way in the pools, there is a
      continuation in which nothing but this request moves on, and it ends. */
  lemma {:induction false} EveryRequestCanEnd(events: seq<Event>, id: Id) returns (more: seq<Event>)
    requires id in Live(events).requests
    ensures var w, w' := Live(events), Live(events + more);
      OthersStay(w, w', id) && Ended(w'.requests[id])
  {
    LiveIsOk(events);
    more := CanEnd(Live(events), id);
    hide OthersStay, Ended;
    OnwardAppend(World([], map[], map[], []), events, more);
  }

  lemma {:induction false} CanEnd(w: World, id: Id) returns (more: seq<Event>)
    requires Inv(w) && id in w.requests
    ensures OthersStay(w, Onward(w, more), id) && Ended(Onward(w, more).requests[id])
    decreases ToGo(w, id)
  {
    if Ended(w.requests[id]) {
      more := [];
    } else {
      hide Next, Inv, ToGo;
      var event := OwnStep(w, id);
      var w' := Next(w, event);
      NextKeepsInv(w, event);
      var rest := CanEnd(w', id);
      more := [event] + rest;
      OnwardAppend(w, [event], rest);
      OnwardOne(w, event);
    }
  }

  lemma {:induction false} OnwardOne(w: World, event: Event)
    ensures Onward(w, [event]) == Next(w, event)
  {
    assert [event][..0] == [];
    assert Onward(w, []) == w;
  }
}
