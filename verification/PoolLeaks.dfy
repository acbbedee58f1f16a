/** When lease ids repeat: for which capacities and ids a pool of `router/internal/capacity/pool.go` can lose a slot
    for good. */
module PoolLeaks {
  import opened PoolSteps
  import P = Pool

  /** The ids of the `Reserve` calls of a run, in the order the calls begin. */
  function ReserveIds(actions: seq<Action>): seq<Id> {
    if |actions| == 0 then []
    else
      var n := |actions| - 1;
      ReserveIds(actions[..n]) + if IsReserve(actions[n]) then [actions[n].call.id] else []
  }

  predicate PairwiseDistinct(ids: seq<Id>) {
    forall i, j :: 0 <= i < j < |ids| ==> ids[i] != ids[j]
  }

  /** Whatever happens besides these `Reserve` calls, and in whatever order, no slot is ever lost. */
  ghost predicate NeverLoses(capacity: int, ids: seq<Id>) {
    forall actions :: ReserveIds(actions) == ids ==> Run(Init(capacity), actions).lost == multiset{}
  }

  /** Whatever happens besides these `Reserve` calls, a pool that nobody is at work on and that has no lease counts
      zero. */
  ghost predicate AlwaysDrains(capacity: int, ids: seq<Id>) {
    forall actions :: ReserveIds(actions) == ids && AtEnd(Run(Init(capacity), actions)) ==>
      Run(Init(capacity), actions).counter == 0
  }

  predicate AtEnd(s: State) {
    Quiescent(s) && s.leases == map[]
  }

  /** For given `Reserve` ids no interleaving with any releases, reaps and touches can lose a slot, if and only if
      the pool has one slot or the ids are pairwise distinct; and the same decides whether the pool always drains. */
  lemma {:induction false} LeaksExactlyWhenIdsRepeat(capacity: int, ids: seq<Id>)
    ensures NeverLoses(capacity, ids) <==> capacity <= 1 || PairwiseDistinct(ids)
    ensures AlwaysDrains(capacity, ids) <==> capacity <= 1 || PairwiseDistinct(ids)
  {
    if capacity <= 1 || PairwiseDistinct(ids) {
      forall actions | ReserveIds(actions) == ids
        ensures Run(Init(capacity), actions).lost == multiset{}
        ensures AtEnd(Run(Init(capacity), actions)) ==> Run(Init(capacity), actions).counter == 0
      {
        if capacity <= 1 {
          OneSlotLosesNothing(capacity, actions);
        } else {
          IdsAreDistinct(actions);
          RunLosesNothing(capacity, actions);
        }
        if AtEnd(Run(Init(capacity), actions)) {
          Drained(capacity, actions);
        }
      }
    } else {
      var actions := DuplicateIdLeaksSlot(capacity, ids);
    }
  }

  // ---------------------------------------------------------------- nothing is lost

  /** A pool of one slot has nothing in its map while a counted lease waits to be put there. */
  lemma {:induction false} OneSlotLosesNothing(capacity: int, actions: seq<Action>)
    requires capacity <= 1
    ensures Run(Init(capacity), actions).lost == multiset{}
    decreases |actions|
  {
    if |actions| > 0 {
      var before, a := actions[..|actions| - 1], actions[|actions| - 1];
      OneSlotLosesNothing(capacity, before);
      RunKeepsInv(capacity, before);
      var s := Run(Init(capacity), before);
      if Overwrites(s, a) {
        InTransitHas(s.threads, a.tid);
        NotEmpty(s.leases, s.threads[a.tid].id);
      }
    }
  }

  lemma {:induction false} NotEmpty(leases: map<Id, Lease>, id: Id)
    requires id in leases
    ensures |leases| > 0
  {
    assert |leases.Keys| == |leases|;
  }

  lemma {:induction false} InTransitHas(threads: seq<Thread>, i: nat)
    requires i < |threads| && threads[i].Counted?
    ensures InTransit(threads) >= 1
    decreases |threads|
  {
    if i < |threads| - 1 {
      InTransitHas(threads[..|threads| - 1], i);
    }
  }

  lemma {:induction false} IdsAreDistinct(actions: seq<Action>)
    requires PairwiseDistinct(ReserveIds(actions))
    ensures DistinctIds(actions)
    decreases |actions|
  {
    if |actions| > 0 {
      var n := |actions| - 1;
      var ids := ReserveIds(actions[..n]);
      assert forall i :: 0 <= i < |ids| ==> ReserveIds(actions)[i] == ids[i];
      IdsAreDistinct(actions[..n]);
      forall i | 0 <= i < n && IsReserve(actions[i]) && IsReserve(actions[n])
        ensures actions[i].call.id != actions[n].call.id
      {
        ReserveIsListed(actions[..n], i);
        assert ReserveIds(actions)[|ids|] == actions[n].call.id;
      }
      forall i, j | 0 <= i < j < |actions| && IsReserve(actions[i]) && IsReserve(actions[j])
        ensures actions[i].call.id != actions[j].call.id
      {
        if j < n {
          assert actions[..n][i] == actions[i] && actions[..n][j] == actions[j];
        }
      }
    }
  }

  lemma {:induction false} ReserveIsListed(actions: seq<Action>, i: nat)
    requires i < |actions| && IsReserve(actions[i])
    ensures actions[i].call.id in ReserveIds(actions)
    decreases |actions|
  {
    if i < |actions| - 1 {
      ReserveIsListed(actions[..|actions| - 1], i);
    }
  }

  // ---------------------------------------------------------------- a slot is lost

  lemma {:induction false} ReserveIdsAppend(first: seq<Action>, rest: seq<Action>)
    ensures ReserveIds(first + rest) == ReserveIds(first) + ReserveIds(rest)
    decreases |rest|
  {
    if |rest| == 0 {
      assert first + rest == first;
    } else {
      assert (first + rest)[..|first + rest| - 1] == first + rest[..|rest| - 1];
      ReserveIdsAppend(first, rest[..|rest| - 1]);
    }
  }

  /** The first place where an id stands that stood before. */
  lemma {:induction false} FirstRepeat(ids: seq<Id>) returns (i: nat, j: nat)
    requires !PairwiseDistinct(ids)
    ensures i < j < |ids| && ids[i] == ids[j] && PairwiseDistinct(ids[..j])
    decreases |ids|
  {
    var n := |ids| - 1;
    PrefixDistinct(ids, n);
    if PairwiseDistinct(ids[..n]) {
      i, j :| 0 <= i < j < |ids| && ids[i] == ids[j];
    } else {
      i, j := FirstRepeat(ids[..n]);
      assert ids[..n][..j] == ids[..j];
    }
  }

  lemma {:induction false} PrefixDistinct(ids: seq<Id>, n: nat)
    requires n <= |ids|
    ensures PairwiseDistinct(ids[..n]) <==> forall i, j :: 0 <= i < j < n ==> ids[i] != ids[j]
  {
    var front := ids[..n];
    assert forall i :: 0 <= i < n ==> front[i] == ids[i];
  }

  /** From `s` to `t` nothing is leased or counted in the end, and the new threads are done. */
  predicate Served(s: State, t: State) {
    && t.leases == s.leases && t.counter == s.counter && t.capacity == s.capacity
    && |s.threads| <= |t.threads| && t.threads[..|s.threads|] == s.threads
    && forall i :: |s.threads| <= i < |t.threads| ==> AtRest(t.threads[i])
  }

  /** One request after another reserves and releases, undisturbed. */
  lemma {:induction false} ServeAll(s: State, ids: seq<Id>) returns (actions: seq<Action>)
    requires s.counter < s.capacity && forall id :: id in ids ==> id !in s.leases
    ensures ReserveIds(actions) == ids && Served(s, Run(s, actions))
    decreases |ids|
  {
    if |ids| == 0 {
      actions := [];
    } else {
      var front, id := ids[..|ids| - 1], ids[|ids| - 1];
      assert ids == front + [id];
      var first := ServeAll(s, front);
      var mid := Run(s, first);
      var rest := ServeOne(mid, id);
      hide Run, ReserveIds;
      actions := first + rest;
      RunAppend(s, first, rest);
      ReserveIdsAppend(first, rest);
      ServedTwice(s, mid, Run(mid, rest));
    }
  }

  lemma {:induction false} ServedTwice(s: State, t: State, u: State)
    requires Served(s, t) && Served(t, u)
    ensures Served(s, u)
  {
    assert u.threads[..|s.threads|] == u.threads[..|t.threads|][..|s.threads|];
    assert forall i :: 0 <= i < |t.threads| ==> u.threads[i] == u.threads[..|t.threads|][i];
  }

  lemma {:induction false} ServeOne(s: State, id: Id) returns (actions: seq<Action>)
    requires s.counter < s.capacity && id !in s.leases
    ensures ReserveIds(actions) == [id] && Served(s, Run(s, actions))
  {
    var first := TakeAlone(s, id);
    var t := Run(s, first);
    var rest := GiveAlone(t, id);
    hide Run, ReserveIds;
    assert s.leases[id := t.leases[id]] - {id} == s.leases;
    actions := first + rest;
    RunAppend(s, first, rest);
    ReserveIdsAppend(first, rest);
  }

  lemma {:induction false} TakeAlone(s: State, id: Id) returns (actions: seq<Action>)
    requires s.counter < s.capacity
    ensures ReserveIds(actions) == [id]
    ensures var t := Run(s, actions);
      && t.capacity == s.capacity && t.counter == s.counter + 1
      && t.leases == s.leases[id := Lease(0, 0)] && t.threads == s.threads + [Reserved(id)]
  {
    var t := |s.threads|;
    var a, b := [Begin(Reserving(id))], [Load(t), Cas(t), Insert(t, 0)];
    actions := [Begin(Reserving(id)), Load(t), Cas(t), Insert(t, 0)];
    assert actions == a + b;
    P.ReserveAlone(s, id, 0);
    hide Run;
    ReserveIdsAppend(a, b);
    NoReserveIds(b);
    assert a[..0] == [] && ReserveIds(a) == [id];
  }

  lemma {:induction false} NoReserveIds(actions: seq<Action>)
    requires forall i :: 0 <= i < |actions| ==> !IsReserve(actions[i])
    ensures ReserveIds(actions) == []
    decreases |actions|
  {
    if |actions| > 0 {
      NoReserveIds(actions[..|actions| - 1]);
    }
  }

  lemma {:induction false} GiveAlone(s: State, id: Id) returns (actions: seq<Action>)
    ensures ReserveIds(actions) == []
    ensures var t := Run(s, actions);
      && t.capacity == s.capacity && t.counter == s.counter - (if id in s.leases then 1 else 0)
      && t.leases == s.leases - {id} && t.threads == s.threads + [Finished]
  {
    var t := |s.threads|;
    actions := if id in s.leases then [Begin(Releasing(id)), Remove(t), Decrement(t, id)]
               else [Begin(Releasing(id)), Remove(t)];
    P.ReleaseAlone(s, id);
    hide Run;
    NoReserveIds(actions);
    assert id !in s.leases ==> s.leases - {id} == s.leases;
  }

  /** With two slots or more, and an id that occurs twice, some interleaving leaves nobody at work, no lease, and a
      slot that is counted for ever. */
  lemma {:induction false} DuplicateIdLeaksSlot(capacity: int, ids: seq<Id>) returns (actions: seq<Action>)
    requires capacity >= 2 && !PairwiseDistinct(ids)
    ensures ReserveIds(actions) == ids
    ensures var s := Run(Init(capacity), actions); AtEnd(s) && s.counter == 1 && s.lost != multiset{}
  {
    var i, j := FirstRepeat(ids);
    var id, before, between, after := ids[i], ids[..i], ids[i + 1..j], ids[j + 1..];
    assert forall k :: 0 <= k < |between| ==> between[k] == ids[..j][i + 1 + k] && ids[..j][i] == id;
    assert id !in between;
    assert ids == before + ([id] + between + [id]) + after;
    var start := Init(capacity);
    var a := ServeAll(start, before);
    var s1 := Run(start, a);
    var b := ServeTwice(s1, id, between);
    var s2 := Run(s1, b);
    var c := ServeAll(s2, after);
    var s3 := Run(s2, c);
    ServedAtRest(start, s1);
    ServedAtRest(s2, s3);
    hide Run, ReserveIds, DistinctIds, Served;
    actions := a + b + c;
    RunAppend(start, a, b);
    RunAppend(start, a + b, c);
    ReserveIdsAppend(a, b);
    ReserveIdsAppend(a + b, c);
    Drained(capacity, actions);
  }

  /** A request holds a slot while another comes under its id; one release serves them both. */
  lemma {:induction false} ServeTwice(s: State, id: Id, between: seq<Id>) returns (actions: seq<Action>)
    requires s.leases == map[] && s.counter == 0 && s.capacity >= 2 && Quiescent(s) && id !in between
    ensures ReserveIds(actions) == [id] + between + [id]
    ensures var t := Run(s, actions); t.leases == map[] && t.counter == 1 && t.capacity == s.capacity && Quiescent(t)
  {
    var a := TakeAlone(s, id);
    var s1 := Run(s, a);
    var b := ServeAll(s1, between);
    var s2 := Run(s1, b);
    var c := TakeAlone(s2, id);
    var s3 := Run(s2, c);
    var d := GiveAlone(s3, id);
    var s4 := Run(s3, d);
    ServedAtRest(s1, s2);
    assert s4.leases == map[];
    hide Run, ReserveIds, Served;
    actions := a + b + c + d;
    RunAppend(s, a, b);
    RunAppend(s, a + b, c);
    RunAppend(s, a + b + c, d);
    ReserveIdsAppend(a, b);
    ReserveIdsAppend(a + b, c);
    ReserveIdsAppend(a + b + c, d);
  }

  lemma {:induction false} ServedAtRest(s: State, t: State)
    requires Served(s, t) && Quiescent(s)
    ensures Quiescent(t)
  {
    forall i | 0 <= i < |t.threads| ensures AtRest(t.threads[i]) {
      if i < |s.threads| {
        assert t.threads[i] == t.threads[..|s.threads|][i];
      }
    }
  }
}
