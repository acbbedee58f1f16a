/** The capacity pool of `router/internal/capacity/pool.go` as one caller alone sees it.  The calls below are what
    a whole `Reserve`, `Release`, `Touch` or `ReapLeases` does when no other thread steps in between; the lemmas
    at the end show that the interleaving machine of `PoolSteps` does the same when one thread runs by itself. */
module Pool {
  import opened PoolSteps

  datatype Account = Account(capacity: int, inflight: int, leases: map<Id, Lease>)

  function Taking(a: Account, id: Id, now: int): (Account, bool) {
    if a.inflight >= a.capacity then (a, false)
    else (a.(inflight := a.inflight + 1, leases := a.leases[id := Lease(now, now)]), true)
  }

  function GivingBack(a: Account, id: Id): Account {
    if id in a.leases then a.(inflight := a.inflight - 1, leases := a.leases - {id}) else a
  }

  function Evicting(a: Account, now: int, hardTimeout: int): Account {
    var stale := Stale(a.leases, now, hardTimeout);
    a.(inflight := a.inflight - |stale|, leases := a.leases - stale)
  }

  function Silent(leases: map<Id, Lease>, cutoff: int): set<Id> {
    set id | id in leases && leases[id].lastActivity < cutoff
  }

  /** The list has the ids of the set, each once. */
  ghost predicate EachOnce(ids: seq<Id>, of: set<Id>) {
    && (forall id :: id in ids <==> id in of)
    && forall i, j :: 0 <= i < j < |ids| ==> ids[i] != ids[j]
  }

  /** What the eviction has left are the leases still to look at and those that were active enough; what it has taken
      out it has listed. */
  ghost predicate SilentLeft(before: map<Id, Lease>, leases: map<Id, Lease>, todo: set<Id>, ids: seq<Id>, cutoff: int) {
    && (forall id :: id in leases <==> id in before && (id in todo || before[id].lastActivity >= cutoff))
    && (forall id :: id in leases ==> leases[id] == before[id])
    && EachOnce(ids, before.Keys - leases.Keys) && |ids| + |leases| == |before|
  }

  lemma {:induction false} SilentStays(before: map<Id, Lease>, leases: map<Id, Lease>, todo: set<Id>, ids: seq<Id>,
                                       cutoff: int, id: Id)
    requires SilentLeft(before, leases, todo, ids, cutoff) && id in todo && id in leases
    ensures leases[id].lastActivity >= cutoff ==> SilentLeft(before, leases, todo - {id}, ids, cutoff)
    ensures leases[id].lastActivity < cutoff ==>
      SilentLeft(before, leases - {id}, todo - {id}, ids + [id], cutoff)
  {
    MapRemove(leases, {id});
    assert before.Keys - (leases - {id}).Keys == before.Keys - leases.Keys + {id};
  }

  lemma {:induction false} SilentGone(before: map<Id, Lease>, leases: map<Id, Lease>, ids: seq<Id>, cutoff: int)
    requires SilentLeft(before, leases, {}, ids, cutoff)
    ensures leases == before - Silent(before, cutoff)
    ensures EachOnce(ids, Silent(before, cutoff)) && |ids| == |Silent(before, cutoff)|
  {
    MapRemove(before, Silent(before, cutoff));
    assert leases == before - Silent(before, cutoff);
    assert before.Keys - leases.Keys == Silent(before, cutoff);
  }

  class Pool {
    const capacity: int
    var inflight: int
    var leases: map<Id, Lease>

    function Value(): Account
      reads this
    {
      Account(capacity, inflight, leases)
    }

    constructor (staticCapacity: int)
      ensures Value() == Account(if staticCapacity < 1 then 1 else staticCapacity, 0, map[])
    {
      capacity := if staticCapacity < 1 then 1 else staticCapacity;
      inflight := 0;
      leases := map[];
    }

    /** Takes a slot if there is one; the lease is active as of now. */
    method Reserve(id: Id, now: int) returns (ok: bool)
      modifies this
      ensures (Value(), ok) == Taking(old(Value()), id, now)
      ensures ok <==> old(inflight) < capacity
      ensures ok ==> inflight == old(inflight) + 1 && leases == old(leases)[id := Lease(now, now)]
      ensures !ok ==> inflight == old(inflight) && leases == old(leases)
    {
      var cur := inflight;
      if cur >= capacity {
        return false;
      }
      inflight := cur + 1;
      leases := leases[id := Lease(now, now)];
      return true;
    }

    /** Gives the slot back; a second call finds nothing to give. */
    method Release(id: Id)
      modifies this
      ensures Value() == GivingBack(old(Value()), id)
      ensures leases == old(leases) - {id}
      ensures inflight == old(inflight) - (if id in old(leases) then 1 else 0)
    {
      if id in leases {
        leases := leases - {id};
        inflight := inflight - 1;
      }
    }

    method Touch(id: Id, now: int)
      modifies this
      ensures inflight == old(inflight) && leases.Keys == old(leases).Keys
      ensures forall other :: other in leases ==>
        leases[other] == if other == id then old(leases)[id].(lastActivity := now) else old(leases)[other]
    {
      if id in leases {
        leases := leases[id := leases[id].(lastActivity := now)];
      }
    }

    /** Evicts the leases that have been silent for longer than the timeout, if that is positive, and gives their slots
        back. */
    method ReapLeases(now: int, hardTimeout: int) returns (reaped: nat)
      modifies this
      ensures Value() == Evicting(old(Value()), now, hardTimeout)
      ensures forall id :: id in leases <==>
        id in old(leases) && !(hardTimeout > 0 && now - old(leases)[id].lastActivity > hardTimeout)
      ensures forall id :: id in leases ==> leases[id] == old(leases)[id]
      ensures reaped == |old(leases).Keys - leases.Keys| && inflight == old(inflight) - reaped
    {
      if hardTimeout <= 0 {
        assert leases - {} == leases;
        return 0;
      }
      var ids := DeleteSilent(now - hardTimeout);
      assert Silent(old(leases), now - hardTimeout) == Stale(old(leases), now, hardTimeout);
      for i := 0 to |ids|
        invariant leases == old(leases) - Stale(old(leases), now, hardTimeout)
        invariant inflight == old(inflight) - i
      {
        inflight := inflight - 1;
      }
      assert old(leases).Keys - leases.Keys == Stale(old(leases), now, hardTimeout);
      return |ids|;
    }

    /** The part of `ReapLeases` under the mutex: the silent leases go, and their ids are listed. */
    method DeleteSilent(cutoff: int) returns (ids: seq<Id>)
      modifies this`leases
      ensures leases == old(leases) - Silent(old(leases), cutoff)
      ensures EachOnce(ids, Silent(old(leases), cutoff)) && |ids| == |Silent(old(leases), cutoff)|
    {
      ghost var before := leases;
      ids := [];
      var todo := leases.Keys;
      while todo != {}
        invariant todo <= leases.Keys
        invariant SilentLeft(before, leases, todo, ids, cutoff)
        decreases |todo|
      {
        var id :| id in todo;
        SilentStays(before, leases, todo, ids, cutoff, id);
        todo := todo - {id};
        if leases[id].lastActivity < cutoff {
          ids := ids + [id];
          leases := leases - {id};
        }
      }
      SilentGone(before, leases, ids, cutoff);
    }

    method Available() returns (free: int)
      ensures free == if inflight < capacity then capacity - inflight else 0
    {
      free := capacity - inflight;
      if free < 0 {
        free := 0;
      }
    }
  }

  /** A lease reserved at `since` outlives a pass of the reaper at `now` exactly when reaping is off or no more than the
      timeout lies between; then its slot stays counted. */
  lemma {:induction false} OutlivesReapExactly(a: Account, id: Id, since: int, now: int, hardTimeout: int)
    requires a.inflight < a.capacity
    ensures var b := Evicting(Taking(a, id, since).0, now, hardTimeout);
      && (id in b.leases <==> hardTimeout <= 0 || now - since <= hardTimeout)
      && b.inflight == a.inflight + 1 - |(a.leases.Keys + {id}) - b.leases.Keys|
  {
    var taken := Taking(a, id, since).0;
    var stale := Stale(taken.leases, now, hardTimeout);
    assert taken.leases.Keys == a.leases.Keys + {id};
    assert taken.leases.Keys - (taken.leases - stale).Keys == stale;
  }

  // ---------------------------------------------------------------- one thread by itself

  function AccountOf(s: State): Account {
    Account(s.capacity, s.counter, s.leases)
  }

  lemma {:induction false} RunTwo(s: State, a: Action, b: Action)
    ensures Run(s, [a, b]) == Step(Step(s, a), b)
  {
    hide Step;
    assert [a, b][..1] == [a] && [a][..0] == [];
    assert Run(s, []) == s;
    assert Run(s, [a]) == Step(s, a);
  }

  /** A `Reserve` that nobody disturbs takes the slot in three operations, or is refused by its first load. */
  lemma {:induction false} ReserveAlone(s: State, id: Id, now: int)
    ensures var t := |s.threads|;
      var (after, ok) := Taking(AccountOf(s), id, now);
      var end := Run(s, if ok then [Begin(Reserving(id)), Load(t), Cas(t), Insert(t, now)]
                        else [Begin(Reserving(id)), Load(t)]);
      AccountOf(end) == after && end.threads == s.threads + [if ok then Reserved(id) else Refused(id)]
  {
    hide Step;
    var t := |s.threads|;
    ReserveLoads(s, id);
    if Taking(AccountOf(s), id, now).1 {
      ReserveTakes(Step(Step(s, Begin(Reserving(id))), Load(t)), s.threads, id, now);
      RunFour(s, [Begin(Reserving(id)), Load(t), Cas(t), Insert(t, now)]);
    } else {
      RunTwo(s, Begin(Reserving(id)), Load(t));
    }
  }

  lemma {:induction false} ReserveLoads(s: State, id: Id)
    ensures var s' := Step(Step(s, Begin(Reserving(id))), Load(|s.threads|));
      AccountOf(s') == AccountOf(s)
      && s'.threads == s.threads + [if s.counter >= s.capacity then Refused(id) else Loaded(id, s.counter)]
  {
    var s1 := Step(s, Begin(Reserving(id)));
    assert s1.threads == s.threads + [Reserving(id)];
  }

  lemma {:induction false} ReserveTakes(s: State, others: seq<Thread>, id: Id, now: int)
    requires s.threads == others + [Loaded(id, s.counter)] && s.counter < s.capacity
    ensures var s' := Step(Step(s, Cas(|others|)), Insert(|others|, now));
      AccountOf(s') == Taking(AccountOf(s), id, now).0 && s'.threads == others + [Reserved(id)]
  {
    var s1 := Step(s, Cas(|others|));
    assert s1.threads == others + [Counted(id)];
  }

  /** A `Release` that nobody disturbs deletes the lease and takes the slot off the counter, once. */
  lemma {:induction false} ReleaseAlone(s: State, id: Id)
    ensures var t := |s.threads|;
      var steps := if id in s.leases then [Begin(Releasing(id)), Remove(t), Decrement(t, id)]
                   else [Begin(Releasing(id)), Remove(t)];
      var end := Run(s, steps);
      AccountOf(end) == GivingBack(AccountOf(s), id) && end.threads == s.threads + [Finished]
  {
    var t := |s.threads|;
    RunTwo(s, Begin(Releasing(id)), Remove(t));
    RunThree(s, [Begin(Releasing(id)), Remove(t), Decrement(t, id)]);
    ReleaseRemoves(s, id);
    if id in s.leases {
      ReleaseDecrements(Step(Step(s, Begin(Releasing(id))), Remove(t)), s.threads, id);
    }
    hide Step, Run;
  }

  lemma {:induction false} ReleaseDecrements(s: State, others: seq<Thread>, id: Id)
    requires s.threads == others + [Owing({id})]
    ensures var s' := Step(s, Decrement(|others|, id));
      s'.counter == s.counter - 1 && s'.capacity == s.capacity && s'.leases == s.leases
      && s'.threads == others + [Finished]
  {
    assert {id} - {id} == {};
  }

  lemma {:induction false} ReleaseRemoves(s: State, id: Id)
    ensures var t := |s.threads|;
      var s2 := Step(Step(s, Begin(Releasing(id))), Remove(t));
      && s2 == s.(leases := s.leases - {id}, threads := s2.threads)
      && s2.threads == s.threads + [if id in s.leases then Owing({id}) else Finished]
  {
    var s1 := Step(s, Begin(Releasing(id)));
    assert s1.threads == s.threads + [Releasing(id)];
    assert id !in s.leases ==> s.leases - {id} == s.leases;
  }
}
