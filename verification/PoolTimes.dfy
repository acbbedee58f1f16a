/** When the leases of `router/internal/capacity/pool.go` were last active, told from the run alone, and which of them
    a reaper's pass evicts. */
module PoolTimes {
  import opened PoolSteps

  datatype Time = Never | At(time: int)

  /** The time at which a step records activity of the id: its lease is put into the map, or is there and touched. */
  function ActiveBy(s: State, a: Action, id: Id): Time {
    match a
    case Insert(tid, now) => if tid < |s.threads| && s.threads[tid] == Counted(id) then At(now) else Never
    case Touch(tid) =>
      if tid < |s.threads| && s.threads[tid].Touching? && s.threads[tid].id == id && id in s.leases
      then At(s.threads[tid].now) else Never
    case _ => Never
  }

  /** The time of the latest such step of the run. */
  function LastActive(staticCapacity: int, actions: seq<Action>, id: Id): Time {
    if |actions| == 0 then Never
    else
      var before, a := actions[..|actions| - 1], actions[|actions| - 1];
      var now := ActiveBy(Run(Init(staticCapacity), before), a, id);
      if now.At? then now else LastActive(staticCapacity, before, id)
  }

  /** The time at which the lease was last put into the map. */
  function StartedAt(staticCapacity: int, actions: seq<Action>, id: Id): Time {
    if |actions| == 0 then Never
    else
      var before, a := actions[..|actions| - 1], actions[|actions| - 1];
      var now := ActiveBy(Run(Init(staticCapacity), before), a, id);
      if now.At? && a.Insert? then now else StartedAt(staticCapacity, before, id)
  }

  /** A step leaves every lease as it was, but for the one it puts in or touches, and it takes none in otherwise. */
  lemma {:induction false} StepTimes(s: State, a: Action, id: Id)
    ensures var s', now := Step(s, a), ActiveBy(s, a, id);
      && (id in s'.leases && now.Never? ==> id in s.leases && s'.leases[id] == s.leases[id])
      && (now.At? ==> id in s'.leases && s'.leases[id].lastActivity == now.time)
      && (now.At? ==> if a.Insert? then s'.leases[id].startedAt == now.time
                      else id in s.leases && s'.leases[id].startedAt == s.leases[id].startedAt)
  {
  }

  /** Over every run a lease in the map bears the time it was put there and the time it was last active. */
  lemma {:induction false} LeasesBearTheirTimes(staticCapacity: int, actions: seq<Action>, id: Id)
    requires id in Run(Init(staticCapacity), actions).leases
    ensures var lease := Run(Init(staticCapacity), actions).leases[id];
      && LastActive(staticCapacity, actions, id) == At(lease.lastActivity)
      && StartedAt(staticCapacity, actions, id) == At(lease.startedAt)
    decreases |actions|
  {
    var before, a := actions[..|actions| - 1], actions[|actions| - 1];
    var s := Run(Init(staticCapacity), before);
    StepTimes(s, a, id);
    hide Step, ActiveBy;
    if id in s.leases {
      LeasesBearTheirTimes(staticCapacity, before, id);
    }
  }

  /** Which of the leases the section of `ReapLeases` under the mutex takes out: those silent for longer than a
      timeout that is positive.  All others stay as they are, and the thread owes a decrement for each one taken. */
  lemma {:induction false} ReapsExactlyTheSilent(staticCapacity: int, actions: seq<Action>, tid: nat)
    requires var s := Run(Init(staticCapacity), actions); tid < |s.threads| && s.threads[tid].Reaping?
    ensures var s := Run(Init(staticCapacity), actions);
      var s', now, timeout := Step(s, Reap(tid)), s.threads[tid].now, s.threads[tid].hardTimeout;
      && s'.counter == s.counter
      && (forall id :: id in s'.leases ==> id in s.leases && s'.leases[id] == s.leases[id])
      && (forall id :: id in s.leases ==>
            LastActive(staticCapacity, actions, id).At?
            && (id !in s'.leases <==>
                  timeout > 0 && now - LastActive(staticCapacity, actions, id).time > timeout))
      && s'.threads[tid] == if s'.leases == s.leases then Finished else Owing(s.leases.Keys - s'.leases.Keys)
  {
    var s := Run(Init(staticCapacity), actions);
    forall id | id in s.leases
      ensures LastActive(staticCapacity, actions, id) == At(s.leases[id].lastActivity)
    {
      LeasesBearTheirTimes(staticCapacity, actions, id);
    }
    hide LastActive, Run;
    ReapStep(s, tid);
  }

  lemma {:induction false} ReapStep(s: State, tid: nat)
    requires tid < |s.threads| && s.threads[tid].Reaping?
    ensures var s', now, timeout := Step(s, Reap(tid)), s.threads[tid].now, s.threads[tid].hardTimeout;
      && s'.counter == s.counter
      && (forall id :: id in s'.leases ==> id in s.leases && s'.leases[id] == s.leases[id])
      && (forall id :: id in s.leases ==>
            (id !in s'.leases <==> timeout > 0 && now - s.leases[id].lastActivity > timeout))
      && s'.threads[tid] == if s'.leases == s.leases then Finished else Owing(s.leases.Keys - s'.leases.Keys)
  {
    var s', stale := Step(s, Reap(tid)), Stale(s.leases, s.threads[tid].now, s.threads[tid].hardTimeout);
    assert s'.leases == s.leases - stale;
    assert stale <= s.leases.Keys;
    assert s.leases.Keys - s'.leases.Keys == stale;
    if stale == {} {
      assert s'.leases == s.leases;
    } else {
      var id :| id in stale;
      assert id in s.leases && id !in s'.leases;
    }
  }
}
