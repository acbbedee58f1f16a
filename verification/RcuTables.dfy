/** Which pools the requests and the watchdog of the router come to: those of the table that is current when they load
    it, and that is the one of the latest swap, whole. */
module RcuTables {
  import S = PoolSteps
  import opened Rcu
  import opened RcuRuns
  import opened RcuSwaps

  // ---------------------------------------------------------------- the table is the last one published

  /** The latest swap: its endpoints, and how many pools there were before it. */
  datatype Swap = Swap(endpoints: seq<(Id, int)>, first: nat)

  /** How many pools the swaps of the run have made. */
  function PoolsMade(events: seq<Event>): nat {
    if |events| == 0 then 0
    else
      var e := events[|events| - 1];
      PoolsMade(events[..|events| - 1]) + if e.Publish? then |e.endpoints| else 0
  }

  function LastSwap(events: seq<Event>): Swap {
    if |events| == 0 then Swap([], 0)
    else if events[|events| - 1].Publish? then Swap(events[|events| - 1].endpoints, PoolsMade(events[..|events| - 1]))
    else LastSwap(events[..|events| - 1])
  }

  /** The endpoint is one of the list. */
  ghost predicate Names(endpoints: seq<(Id, int)>, e: Id) {
    exists k :: 0 <= k < |endpoints| && endpoints[k].0 == e
  }

  /** The endpoint's entry is the pool that this swap made for the last place the endpoint has in its list. */
  ghost predicate EntryOf(w: World, e: Id, swap: Swap) {
    && e in w.table
    && var k := w.table[e] - swap.first;
       && LastPlace(swap.endpoints, e, k) && w.table[e] < |w.pools|
       && w.pools[w.table[e]].owner == e && w.pools[w.table[e]].capacity == swap.endpoints[k].1
  }

  /** After any run the table has exactly the endpoints of the latest swap, each with the pool that this swap made for
      it; an endpoint left out is gone. */
  lemma {:induction false} TableIsTheLastPublished(events: seq<Event>)
    ensures var w, swap := Live(events), LastSwap(events);
      && |w.pools| == PoolsMade(events)
      && (forall e :: e in w.table <==> Names(swap.endpoints, e))
      && (forall e :: e in w.table ==> EntryOf(w, e, swap))
    decreases |events|
  {
    if |events| > 0 {
      var before, event := events[..|events| - 1], events[|events| - 1];
      TableIsTheLastPublished(before);
      var w := Live(before);
      assert Live(events) == Next(w, event);
      hide EntryOf, Names, Next, Live;
      if event.Publish? {
        TableIsNew(w, event.endpoints);
      } else {
        TableStays(w, event, LastSwap(before));
      }
    }
  }

  lemma {:induction false} TableIsNew(w: World, endpoints: seq<(Id, int)>)
    ensures var w', swap := Next(w, Publish(endpoints)), Swap(endpoints, |w.pools|);
      && |w'.pools| == |w.pools| + |endpoints|
      && (forall e :: e in w'.table <==> Names(endpoints, e))
      && (forall e :: e in w'.table ==> EntryOf(w', e, swap))
  {
    PublishedTable(w, endpoints);
    hide LastPlace, NewTable;
  }

  lemma {:induction false} TableStays(w: World, event: Event, swap: Swap)
    requires !event.Publish? && forall e :: e in w.table ==> EntryOf(w, e, swap)
    ensures Next(w, event).table == w.table && |Next(w, event).pools| == |w.pools|
    ensures forall e :: e in w.table ==> EntryOf(Next(w, event), e, swap)
  {
    NextKeepsTable(w, event);
    hide Next;
    forall e | e in w.table ensures EntryOf(Next(w, event), e, swap) {
      EntryStays(w, Next(w, event), e, swap);
    }
  }

  lemma {:induction false} EntryStays(w: World, w': World, e: Id, swap: Swap)
    requires EntryOf(w, e, swap) && w'.table == w.table && |w'.pools| == |w.pools|
    requires forall p :: 0 <= p < |w.pools| ==>
      w'.pools[p].owner == w.pools[p].owner && w'.pools[p].capacity == w.pools[p].capacity
    ensures EntryOf(w', e, swap)
  {
    hide LastPlace;
  }

  // ---------------------------------------------------------------- whom a request asks

  /** The candidates a request took from the table, if it has looked. */
  function Viewed(events: seq<Event>, id: Id): seq<nat> {
    if |events| == 0 then []
    else
      var before, event := events[..|events| - 1], events[|events| - 1];
      if event.View? && event.id == id && Next(Live(before), event) != Live(before) then event.candidates
      else Viewed(before, id)
  }

  /** A request that looks takes distinct pools, all of the table as it is then. */
  lemma {:induction false} LooksAtTheTable(w: World, id: Id, candidates: seq<nat>)
    ensures var w' := Next(w, View(id, candidates));
      w' != w ==>
        && w' == w.(requests := w.requests[id := Choosing(candidates)]) && Distinct(candidates)
        && forall c :: c in candidates ==> exists e :: e in w.table && w.table[e] == c
  {
  }

  /** What a request goes down are pools of the table that was current when it looked. */
  lemma {:induction false} ViewedTheTable(events: seq<Event>, id: Id) returns (n: nat)
    requires Viewed(events, id) != []
    ensures n < |events| && events[n] == View(id, Viewed(events, id)) && Distinct(Viewed(events, id))
    ensures forall c :: c in Viewed(events, id) ==> c in Live(events[..n]).table.Values
    decreases |events|
  {
    n := |events| - 1;
    var before, event := events[..n], events[n];
    if event.View? && event.id == id && Next(Live(before), event) != Live(before) {
      LooksAtTheTable(Live(before), id, event.candidates);
    } else {
      n := ViewedTheTable(before, id);
      assert events[..n] == before[..n];
    }
  }

  ghost predicate RefusedBy(w: World, id: Id, p: nat) {
    p < |w.pools|
    && exists t :: 0 <= t < |StateOf(w.pools[p]).threads| && StateOf(w.pools[p]).threads[t] == S.Refused(id)
  }

  /** The first `n` candidates have all refused the request. */
  ghost predicate AllRefused(w: World, id: Id, viewed: seq<nat>, n: nat) {
    n <= |viewed| && forall i :: 0 <= i < n ==> RefusedBy(w, id, viewed[i])
  }

  /** How far down its candidates the request is. */
  ghost predicate At(w: World, id: Id, viewed: seq<nat>, n: nat)
    requires id in w.requests
  {
    && AllRefused(w, id, viewed, n)
    && match w.requests[id]
       case Arrived => false
       case Choosing(rest) => rest == viewed[n..]
       case Trying(p, _, rest) => n < |viewed| && p == viewed[n] && rest == viewed[n + 1..]
       case Holding(p) => n < |viewed| && p == viewed[n]
       case Leaving(p, _) => n < |viewed| && p == viewed[n]
       case Left(p) => n < |viewed| && p == viewed[n]
       case TurnedAway => n == |viewed|
  }

  /** A refusal is for good. */
  lemma {:induction false} RefusalStays(w: World, event: Event, id: Id, p: nat)
    requires RefusedBy(w, id, p)
    ensures RefusedBy(Next(w, event), id, p)
  {
    var a := PoolActs(w, event, p);
    var t :| 0 <= t < |StateOf(w.pools[p]).threads| && StateOf(w.pools[p]).threads[t] == S.Refused(id);
    ActedSteps(w.pools[p], a);
    hide StateOf, Next;
    StaysRefused(StateOf(w.pools[p]), a, t);
  }

  lemma {:induction false} StaysRefused(s: S.State, a: S.Action, t: nat)
    requires t < |s.threads| && s.threads[t].Refused?
    ensures t < |S.Step(s, a).threads| && S.Step(s, a).threads[t] == s.threads[t]
  {
  }

  lemma {:induction false} RefusalsStay(w: World, event: Event, id: Id, viewed: seq<nat>, n: nat)
    requires AllRefused(w, id, viewed, n)
    ensures AllRefused(Next(w, event), id, viewed, n)
  {
    hide RefusedBy;
    forall i | 0 <= i < n ensures RefusedBy(Next(w, event), id, viewed[i]) {
      RefusalStays(w, event, id, viewed[i]);
    }
  }

  /** An event takes a request to its next candidate only when the one it asked has refused. */
  lemma {:induction false} MovesDown(w: World, event: Event, id: Id, viewed: seq<nat>, n: nat) returns (n': nat)
    requires Inv(w) && id in w.requests && At(w, id, viewed, n)
    ensures id in Next(w, event).requests && At(Next(w, event), id, viewed, n')
  {
    RefusalsStay(w, event, id, viewed, n);
    var w' := Next(w, event);
    n' := n;
    if event == Settle(id) && w.requests[id].Trying? {
      var ph := w.requests[id];
      assert PhaseOk(w.pools, id, ph);
      if ThreadOf(w, ph.pool, ph.tid).Refused? {
        n' := n + 1;
        assert RefusedBy(w, id, viewed[n]) by {
          assert StateOf(w.pools[ph.pool]).threads[ph.tid] == S.Refused(id);
        }
        RefusalStays(w, event, id, viewed[n]);
      }
    } else {
      hide RefusedBy, StateOf, Inv;
      SameOrNext(w, event, id, viewed, n);
    }
  }

  lemma {:induction false} SameOrNext(w: World, event: Event, id: Id, viewed: seq<nat>, n: nat)
    requires id in w.requests && At(w, id, viewed, n) && AllRefused(Next(w, event), id, viewed, n)
    requires !(event == Settle(id) && w.requests[id].Trying? &&
               ThreadOf(w, w.requests[id].pool, w.requests[id].tid).Refused?)
    ensures id in Next(w, event).requests && At(Next(w, event), id, viewed, n)
  {
    assert n <= |viewed|;
    hide StateOf, ThreadOf, AllRefused;
    assert n < |viewed| ==> viewed[n..][0] == viewed[n] && viewed[n..][1..] == viewed[n + 1..];
    match event
    case View(_, _) =>
    case Try(_) =>
    case Settle(_) =>
    case Leave(_) =>
    case Gone(_) =>
    case _ =>
  }

  /** In every run a request that has looked is at some place down the candidates it took then, in their order, and all
      before that place have refused it. */
  lemma {:induction false} GoesDownItsCandidates(events: seq<Event>, id: Id) returns (n: nat)
    requires id in Live(events).requests && !Live(events).requests[id].Arrived?
    ensures At(Live(events), id, Viewed(events, id), n)
    decreases |events|
  {
    var before, event := events[..|events| - 1], events[|events| - 1];
    var w := Live(before);
    LiveIsOk(before);
    assert Live(events) == Next(w, event);
    hide Live, Inv, Next, At;
    if id in w.requests && !w.requests[id].Arrived? {
      if event.View? && event.id == id {
        LooksOnce(w, id, event.candidates);
      }
      n := GoesDownItsCandidates(before, id);
      n := MovesDown(w, event, id, Viewed(before, id), n);
    } else {
      n := 0;
      FirstLook(w, event, id);
      assert Viewed(events, id) == event.candidates;
      LooksDown(Live(events), id, event.candidates);
    }
  }

  lemma {:induction false} LooksOnce(w: World, id: Id, candidates: seq<nat>)
    requires id in w.requests && !w.requests[id].Arrived?
    ensures Next(w, View(id, candidates)) == w
  {
  }

  lemma {:induction false} FirstLook(w: World, event: Event, id: Id)
    requires id in w.requests ==> w.requests[id].Arrived?
    requires id in Next(w, event).requests && !Next(w, event).requests[id].Arrived?
    ensures event.View? && event.id == id && Next(w, event) != w
    ensures Next(w, event).requests[id] == Choosing(event.candidates)
  {
    hide StateOf;
  }

  lemma {:induction false} LooksDown(w: World, id: Id, candidates: seq<nat>)
    requires id in w.requests && w.requests[id] == Choosing(candidates)
    ensures At(w, id, candidates, 0)
  {
    assert candidates[0..] == candidates;
  }

  /** The request has the candidate at `n`, and those before it have refused. */
  ghost predicate FirstToAdmit(w: World, id: Id, viewed: seq<nat>, n: nat) {
    && id in w.requests && n < |viewed| && w.requests[id] == Holding(viewed[n])
    && forall i :: 0 <= i < n ==> RefusedBy(w, id, viewed[i])
  }

  /** A request gets the first of its candidates that does not refuse it, and it is turned away only after every one of
      them has. */
  lemma {:induction false} HoldsTheFirstThatAdmits(events: seq<Event>, id: Id)
    requires id in Live(events).requests
    ensures Live(events).requests[id].TurnedAway? ==>
      forall p :: p in Viewed(events, id) ==> RefusedBy(Live(events), id, p)
    ensures Live(events).requests[id].Holding? ==>
      exists n :: FirstToAdmit(Live(events), id, Viewed(events, id), n)
  {
    if !Live(events).requests[id].Arrived? {
      var n := GoesDownItsCandidates(events, id);
      hide Live, RefusedBy, Viewed;
      if Live(events).requests[id].Holding? {
        assert FirstToAdmit(Live(events), id, Viewed(events, id), n);
      }
    }
  }

  /** A touch by a request that holds a pool is one of its lease there. */
  lemma {:induction false} TouchesWhatItHolds(w: World, id: Id, p: nat, now: int)
    requires id in w.requests && w.requests[id] == Holding(p) && p < |w.pools|
    ensures Next(w, Touch(id, now)) == w.(pools := w.pools[p := Acted(w.pools[p], S.Begin(S.Touching(id, now)))])
  {
  }

  // ---------------------------------------------------------------- whom a watchdog pass reaps

  /** The pools that the pass has come to so far. */
  function ReapedBy(events: seq<Event>, pass: nat): set<nat> {
    if |events| == 0 then {}
    else
      var before, event := events[..|events| - 1], events[|events| - 1];
      ReapedBy(before, pass)
      + if event.Reap? && event.pass == pass && Next(Live(before), event) != Live(before) then {event.pool} else {}
  }

  /** A pass has before it exactly the pools that were in the table when it began and that it has not reaped yet. */
  lemma {:induction false} PassReapsItsTable(events: seq<Event>, n: nat)
    requires n < |events| && events[n].Watch?
    ensures var w, pass := Live(events[..n]), |Live(events[..n]).passes|;
      && pass < |Live(events).passes|
      && Live(events).passes[pass] == w.table.Values - ReapedBy(events, pass)
      && ReapedBy(events, pass) <= w.table.Values
    decreases |events|
  {
    var m := |events| - 1;
    var before, event := events[..m], events[m];
    var pass := |Live(events[..n]).passes|;
    assert Live(events) == Next(Live(before), event);
    if n == m {
      NotYetReaped(before, pass);
    } else {
      assert before[..n] == events[..n];
      PassReapsItsTable(before, n);
      LiveIsOk(before);
      hide Live, StateOf;
      PassMoves(Live(before), event, pass);
    }
  }

  /** An event leaves a pass as it is, or reaps one of its pools, which then has a thread of that reaper. */
  lemma {:induction false} PassMoves(w: World, event: Event, pass: nat)
    requires pass < |w.passes|
    ensures var w' := Next(w, event);
      && pass < |w'.passes|
      && if event.Reap? && event.pass == pass && w' != w then
           && event.pool in w.passes[pass] && event.pool < |w.pools|
           && w'.passes[pass] == w.passes[pass] - {event.pool}
           && w'.pools == w.pools[event.pool :=
                Acted(w.pools[event.pool], S.Begin(S.Reaping(event.now, event.hardTimeout)))]
         else w'.passes[pass] == w.passes[pass]
  {
    hide StateOf;
  }

  lemma {:induction false} NotYetReaped(events: seq<Event>, pass: nat)
    requires pass >= |Live(events).passes|
    ensures ReapedBy(events, pass) == {}
    decreases |events|
  {
    if |events| > 0 {
      var before, event := events[..|events| - 1], events[|events| - 1];
      assert Live(events) == Next(Live(before), event);
      hide StateOf, Live;
      PassesGrow(Live(before), event, pass);
      hide Next;
      NotYetReaped(before, pass);
    }
  }

  lemma {:induction false} PassesGrow(w: World, event: Event, pass: nat)
    requires pass >= |Next(w, event).passes|
    ensures pass >= |w.passes| && (event.Reap? && event.pass == pass ==> Next(w, event) == w)
  {
    hide StateOf;
  }
}
