/** The session-sticky admission of `router-legacy/router.py`, class `Router`: `select`, `release`,
    `_cleanup_sessions` and the accounts they share. */
module LegacyRouter {

  datatype Option<+T> = None | Some(value: T)

  type Sid = string

  datatype Backend = Backend(name: string, priority: int, cap: int, healthy: bool, busy: int, inflight: int)

  datatype Lease = Lease(backend: string, expiresAt: real)

  datatype State = State(backends: seq<Backend>, sessions: map<Sid, Lease>, counts: map<Sid, int>)

  function Available(b: Backend): int {
    if b.cap - b.busy - b.inflight > 0 then b.cap - b.busy - b.inflight else 0
  }

  /** Healthy and with a free slot. */
  predicate Usable(b: Backend) {
    b.healthy && Available(b) >= 1
  }

  /** A missing session id and an empty one are the same to the router. */
  function Named(sid: Option<Sid>): Option<Sid> {
    if sid.Some? && sid.value != "" then sid else None
  }

  function CountOf(counts: map<Sid, int>, sid: Sid): int {
    if sid in counts then counts[sid] else 0
  }

  function ByName(backends: seq<Backend>, name: string): (at: Option<nat>)
    ensures at.Some? ==> at.value < |backends| && backends[at.value].name == name
    ensures at.None? ==> forall i :: 0 <= i < |backends| ==> backends[i].name != name
  {
    if |backends| == 0 then None
    else if backends[|backends| - 1].name == name then Some(|backends| - 1)
    else ByName(backends[..|backends| - 1], name)
  }

  ghost predicate DistinctNames(backends: seq<Backend>) {
    forall i, j :: 0 <= i < j < |backends| ==> backends[i].name != backends[j].name
  }

  // ---------------------------------------------------------------- what the calls mean

  /** Leases run out, but not under a session that still has requests. */
  predicate RunsOut(s: State, sid: Sid, now: real)
    requires sid in s.sessions
  {
    s.sessions[sid].expiresAt <= now && CountOf(s.counts, sid) == 0
  }

  function Cleanup(s: State, now: real): State {
    var gone := set sid | sid in s.sessions && RunsOut(s, sid, now);
    s.(sessions := s.sessions - gone, counts := s.counts - gone)
  }

  /** `i` comes before `j` in the priority order: a smaller number first, then the configured order. */
  predicate Before(backends: seq<Backend>, i: nat, j: nat)
    requires i < |backends| && j < |backends|
  {
    backends[i].priority < backends[j].priority || (backends[i].priority == backends[j].priority && i < j)
  }

  ghost predicate BestUsable(backends: seq<Backend>, c: Option<nat>) {
    match c
    case None => forall i :: 0 <= i < |backends| ==> !Usable(backends[i])
    case Some(i) =>
      && i < |backends| && Usable(backends[i])
      && forall j :: 0 <= j < |backends| && Usable(backends[j]) && j != i ==> Before(backends, i, j)
  }

  function PinnedTo(backends: seq<Backend>, name: string): Option<nat> {
    var at := ByName(backends, name);
    if at.Some? && Usable(backends[at.value]) then at else None
  }

  function PinOf(s: State, force: Option<string>, vision: bool): Option<nat> {
    if vision && force.Some? && force.value != "" then PinnedTo(s.backends, force.value) else None
  }

  function StickyOf(s: State, sid: Option<Sid>): Option<nat> {
    if Named(sid).Some? && Named(sid).value in s.sessions then
      PinnedTo(s.backends, s.sessions[Named(sid).value].backend)
    else None
  }

  /** The backend picked after the cleanup: the vision pin, else the session's own, else the best usable. */
  ghost predicate Picks(s: State, sid: Option<Sid>, force: Option<string>, vision: bool, c: Option<nat>) {
    if PinOf(s, force, vision).Some? then c == PinOf(s, force, vision)
    else if StickyOf(s, sid).Some? then c == StickyOf(s, sid)
    else BestUsable(s.backends, c)
  }

  /** Admits one request on backend `c`: a slot is taken, and a session's lease is on that backend from now. */
  function Admit(s: State, c: nat, sid: Option<Sid>, later: real, ttl: real): State
    requires c < |s.backends|
  {
    var backends := s.backends[c := s.backends[c].(inflight := s.backends[c].inflight + 1)];
    match Named(sid)
    case None => s.(backends := backends)
    case Some(name) =>
      State(backends, s.sessions[name := Lease(s.backends[c].name, later + ttl)],
            s.counts[name := CountOf(s.counts, name) + 1])
  }

  function Returned(s: State, c: nat, sid: Option<Sid>, later: real, ttl: real): State
    requires c < |s.backends|
  {
    var b := s.backends[c];
    var backends := s.backends[c := if b.inflight > 0 then b.(inflight := b.inflight - 1) else b];
    match Named(sid)
    case None => s.(backends := backends)
    case Some(name) =>
      var left := if CountOf(s.counts, name) > 1 then CountOf(s.counts, name) - 1 else 0;
      State(backends,
            if name in s.sessions && s.sessions[name].backend == b.name
            then s.sessions[name := s.sessions[name].(expiresAt := later + ttl)] else s.sessions,
            if left > 0 then s.counts[name := left] else s.counts - {name})
  }

  // ---------------------------------------------------------------- in terms of the fields

  /** A cleanup keeps a lease exactly when it has not run out or its session has requests, and keeps it as it is; the
      count of a session whose lease stays, or that has none, stays too. */
  lemma {:induction false} CleanupKeepsExactly(s: State, now: real, sid: Sid)
    ensures var t := Cleanup(s, now);
      && t.backends == s.backends
      && (sid in t.sessions <==> sid in s.sessions && (s.sessions[sid].expiresAt > now || CountOf(s.counts, sid) != 0))
      && (sid in t.sessions ==> t.sessions[sid] == s.sessions[sid])
      && CountOf(t.counts, sid) == CountOf(s.counts, sid)
  {
  }

  /** A backend is usable when it is healthy and what it reports busy and what was sent there leave a slot. */
  lemma {:induction false} UsableExactly(b: Backend)
    ensures Usable(b) <==> b.healthy && b.busy + b.inflight < b.cap
  {
  }

  /** The best usable backend has the least priority number of all usable ones, and is the first configured of those. */
  lemma {:induction false} BestIsLeast(backends: seq<Backend>, c: nat, j: nat)
    requires BestUsable(backends, Some(c)) && j < |backends|
    requires backends[j].healthy && backends[j].busy + backends[j].inflight < backends[j].cap
    ensures c < |backends| && backends[c].priority <= backends[j].priority
    ensures backends[c].priority == backends[j].priority ==> c <= j
  {
  }

  /** A request under the empty session id is nobody's: it is routed and accounted for like one without an id, and no
      session is touched. */
  lemma {:induction false} EmptyIdIsNobody(s: State, force: Option<string>, vision: bool, c: Option<nat>, i: nat,
                                           later: real, ttl: real)
    requires i < |s.backends|
    ensures Picks(s, Some(""), force, vision, c) <==> Picks(s, None, force, vision, c)
    ensures var t := Admit(s, i, Some(""), later, ttl);
      t == Admit(s, i, None, later, ttl) && t.sessions == s.sessions && t.counts == s.counts
    ensures var t := Returned(s, i, Some(""), later, ttl);
      t == Returned(s, i, None, later, ttl) && t.sessions == s.sessions && t.counts == s.counts
  {
  }

  /** An admission takes one slot on its backend, and counts one request for the session, whose lease is there until its
      time to live is over; no other backend or session is touched. */
  lemma {:induction false} AdmitsExactly(s: State, c: nat, name: Sid, later: real, ttl: real, i: nat, sid: Sid)
    requires c < |s.backends| && name != "" && i < |s.backends|
    ensures var t := Admit(s, c, Some(name), later, ttl);
      && |t.backends| == |s.backends|
      && t.backends[i] == s.backends[i].(inflight := s.backends[i].inflight + if i == c then 1 else 0)
      && CountOf(t.counts, sid) == CountOf(s.counts, sid) + (if sid == name then 1 else 0)
      && name in t.sessions && t.sessions[name] == Lease(s.backends[c].name, later + ttl)
      && (sid != name ==> (sid in t.sessions <==> sid in s.sessions))
      && (sid != name && sid in s.sessions ==> t.sessions[sid] == s.sessions[sid])
  {
  }

  /** A release gives back one slot of its backend and one request of the session, neither ever below zero, and forgets
      the count when it is zero; the session's lease, when on that backend, then lasts its time to live from there. */
  lemma {:induction false} ReturnsExactly(s: State, c: nat, name: Sid, later: real, ttl: real, i: nat, sid: Sid)
    requires c < |s.backends| && name != "" && i < |s.backends|
    ensures var t := Returned(s, c, Some(name), later, ttl);
      && |t.backends| == |s.backends|
      && t.backends[i] == s.backends[i].(inflight := t.backends[i].inflight)
      && t.backends[i].inflight ==
           (if i == c && s.backends[c].inflight > 0 then s.backends[c].inflight - 1 else s.backends[i].inflight)
      && CountOf(t.counts, sid) ==
           (if sid == name && CountOf(s.counts, sid) > 0 then CountOf(s.counts, sid) - 1
            else if sid == name then 0 else CountOf(s.counts, sid))
      && (name in t.counts <==> CountOf(t.counts, name) > 0) && (sid in t.sessions <==> sid in s.sessions)
      && (sid in t.sessions ==> t.sessions[sid].backend == s.sessions[sid].backend)
      && var renewed := sid == name && sid in s.sessions && s.sessions[sid].backend == s.backends[c].name;
      && (sid in t.sessions ==> t.sessions[sid].expiresAt == if renewed then later + ttl else s.sessions[sid].expiresAt)
  {
  }

  // ---------------------------------------------------------------- the router

  class Router {
    const ttl: real
    var backends: seq<Backend>
    var sessions: map<Sid, Lease>
    var counts: map<Sid, int>

    function Value(): State
      reads this
    {
      State(backends, sessions, counts)
    }

    constructor (backends: seq<Backend>, ttl: real)
      ensures Value() == State(backends, map[], map[]) && this.ttl == ttl
    {
      this.ttl := ttl;
      this.backends := backends;
      sessions := map[];
      counts := map[];
    }

    method CleanupSessions(now: real)
      modifies this
      ensures Value() == Cleanup(old(Value()), now)
    {
      ghost var s := Value();
      var todo := sessions.Keys;
      while todo != {}
        invariant todo <= s.sessions.Keys
        invariant CleanedSoFar(s, Value(), todo, now)
        decreases |todo|
      {
        var sid :| sid in todo;
        ghost var t := Value();
        if sessions[sid].expiresAt <= now && CountOf(counts, sid) == 0 {
          sessions := sessions - {sid};
          counts := counts - {sid};
        }
        CleanOne(s, t, Value(), todo, sid, now);
        todo := todo - {sid};
      }
      CleanedIsCleanup(s, Value(), now);
    }

    /** The session argument makes no difference: both of the last answers are yes. */
    method CanUse(b: Backend, sid: Option<Sid>) returns (yes: bool)
      ensures yes == Usable(b)
    {
      if !b.healthy {
        return false;
      }
      if Available(b) < 1 {
        return false;
      }
      var name := Named(sid);
      if name.Some? && CountOf(counts, name.value) > 0 && name.value in sessions
         && sessions[name.value].backend == b.name {
        return true;
      }
      return true;
    }

    method AdmitOn(c: nat, sid: Option<Sid>, later: real)
      requires c < |backends|
      modifies this
      ensures Value() == Admit(old(Value()), c, sid, later, ttl)
    {
      backends := backends[c := backends[c].(inflight := backends[c].inflight + 1)];
      var name := Named(sid);
      if name.Some? {
        sessions := sessions[name.value := Lease(backends[c].name, later + ttl)];
        counts := counts[name.value := CountOf(counts, name.value) + 1];
      }
    }

    /** The backend of this name, if it can take a request. */
    method Pinned(name: string, sid: Option<Sid>) returns (c: Option<nat>)
      ensures c == PinnedTo(backends, name)
    {
      var at := ByName(backends, name);
      if at.Some? {
        var ok := CanUse(backends[at.value], sid);
        if ok {
          return at;
        }
      }
      return None;
    }

    /** Strict priority: the first backend in order that can take a request. */
    method FirstUsable(sid: Option<Sid>) returns (c: Option<nat>)
      ensures BestUsable(backends, c)
    {
      var order := Order(backends, |backends|);
      for k := 0 to |order|
        invariant forall m :: 0 <= m < k ==> !Usable(backends[order[m]])
      {
        var ok := CanUse(backends[order[k]], sid);
        if ok {
          FirstInOrderIsBest(backends, k);
          return Some(order[k]);
        }
      }
      NoneInOrder(backends);
      return None;
    }

    /** Picks a backend for a request and counts it there; `None` means the router answers that all are at
        capacity. */
    method Select(sid: Option<Sid>, force: Option<string>, vision: bool, now: real, later: real)
      returns (c: Option<nat>)
      modifies this
      ensures Picks(Cleanup(old(Value()), now), sid, force, vision, c)
      ensures c.Some? ==> c.value < |old(backends)|
      ensures Value() == if c.None? then Cleanup(old(Value()), now)
                         else Admit(Cleanup(old(Value()), now), c.value, sid, later, ttl)
    {
      CleanupSessions(now);
      c := None;
      if vision && force.Some? && force.value != "" {
        c := Pinned(force.value, sid);
      }
      if c.None? && Named(sid).Some? && Named(sid).value in sessions {
        c := Pinned(sessions[Named(sid).value].backend, sid);
      }
      if c.None? {
        c := FirstUsable(sid);
      }
      if c.Some? {
        AdmitOn(c.value, sid, later);
      }
    }

    method Release(c: nat, sid: Option<Sid>, now: real, later: real)
      requires c < |backends|
      modifies this
      ensures Value() == Cleanup(Returned(old(Value()), c, sid, later, ttl), now)
    {
      if backends[c].inflight > 0 {
        backends := backends[c := backends[c].(inflight := backends[c].inflight - 1)];
      }
      var name := Named(sid);
      if name.Some? {
        var left := CountOf(counts, name.value) - 1;
        counts := counts[name.value := if left > 0 then left else 0];
        if CountOf(counts, name.value) <= 0 {
          counts := counts - {name.value};
        }
        if name.value in sessions && sessions[name.value].backend == backends[c].name {
          sessions := sessions[name.value := sessions[name.value].(expiresAt := later + ttl)];
        }
        assert counts == Returned(old(Value()), c, sid, later, ttl).counts;
      } else {
        assert backends == Returned(old(Value()), c, sid, later, ttl).backends;
      }
      assert Value() == Returned(old(Value()), c, sid, later, ttl);
      CleanupSessions(now);
    }
  }

  // ---------------------------------------------------------------- cleaning up one session at a time

  /** The cleanup with the sessions in `todo` still to look at. */
  ghost predicate CleanedSoFar(s: State, t: State, todo: set<Sid>, now: real) {
    && t.backends == s.backends
    && (forall sid :: sid in t.sessions <==> sid in s.sessions && (sid in todo || !RunsOut(s, sid, now)))
    && (forall sid :: sid in t.sessions ==> t.sessions[sid] == s.sessions[sid])
    && (forall sid :: sid in t.counts <==>
          sid in s.counts && !(sid in s.sessions && sid !in todo && RunsOut(s, sid, now)))
    && (forall sid :: sid in t.counts ==> t.counts[sid] == s.counts[sid])
  }

  lemma {:induction false} CleanOne(s: State, t: State, u: State, todo: set<Sid>, sid: Sid, now: real)
    requires todo <= s.sessions.Keys && sid in todo && CleanedSoFar(s, t, todo, now)
    requires u == if RunsOut(t, sid, now) then t.(sessions := t.sessions - {sid}, counts := t.counts - {sid}) else t
    ensures CleanedSoFar(s, u, todo - {sid}, now)
  {
    assert RunsOut(t, sid, now) == RunsOut(s, sid, now);
  }

  lemma {:induction false} CleanedIsCleanup(s: State, t: State, now: real)
    requires CleanedSoFar(s, t, {}, now)
    ensures t == Cleanup(s, now)
  {
    assert t.sessions == Cleanup(s, now).sessions;
    assert t.counts == Cleanup(s, now).counts;
  }

  // ---------------------------------------------------------------- the priority order

  /** The first `n` backends, sorted by priority, ties in configured order. */
  function Order(backends: seq<Backend>, n: nat): (order: seq<nat>)
    requires n <= |backends|
    ensures forall i :: 0 <= i < |order| ==> order[i] < n
  {
    if n == 0 then [] else Insert(backends, Order(backends, n - 1), n - 1)
  }

  function Insert(backends: seq<Backend>, order: seq<nat>, i: nat): (longer: seq<nat>)
    requires i < |backends| && forall k :: 0 <= k < |order| ==> order[k] < |backends|
    ensures forall k :: 0 <= k < |longer| ==> longer[k] == i || longer[k] in order
  {
    if |order| > 0 && backends[order[|order| - 1]].priority > backends[i].priority then
      Insert(backends, order[..|order| - 1], i) + [order[|order| - 1]]
    else order + [i]
  }

  ghost predicate Sorted(backends: seq<Backend>, order: seq<nat>) {
    && (forall k :: 0 <= k < |order| ==> order[k] < |backends|)
    && forall k, m :: 0 <= k < m < |order| ==> Before(backends, order[k], order[m])
  }

  lemma {:induction false} InsertSorts(backends: seq<Backend>, order: seq<nat>, i: nat)
    requires i < |backends| && Sorted(backends, order) && forall k :: 0 <= k < |order| ==> order[k] < i
    ensures Sorted(backends, Insert(backends, order, i))
    ensures forall j :: j in Insert(backends, order, i) <==> j == i || j in order
    decreases |order|
  {
    if |order| > 0 && backends[order[|order| - 1]].priority > backends[i].priority {
      var front, last := order[..|order| - 1], order[|order| - 1];
      InsertSorts(backends, front, i);
      assert order == front + [last];
      forall k | 0 <= k < |Insert(backends, front, i)|
        ensures Before(backends, Insert(backends, front, i)[k], last)
      {
        var j := Insert(backends, front, i)[k];
        if j != i {
          var at :| 0 <= at < |front| && front[at] == j;
          assert Before(backends, order[at], order[|order| - 1]);
        }
      }
    } else if |order| > 0 {
      var n := |order| - 1;
      forall k | 0 <= k < |order| ensures Before(backends, order[k], i) {
        if k < n {
          assert Before(backends, order[k], order[n]);
        }
      }
    }
  }

  lemma {:induction false} OrderSorts(backends: seq<Backend>, n: nat)
    requires n <= |backends|
    ensures Sorted(backends, Order(backends, n))
    ensures forall j :: j in Order(backends, n) <==> 0 <= j < n
    decreases n
  {
    hide Insert, Before;
    if n > 0 {
      OrderSorts(backends, n - 1);
      InsertSorts(backends, Order(backends, n - 1), n - 1);
    }
  }

  lemma {:induction false} FirstInOrderIsBest(backends: seq<Backend>, k: nat)
    requires k < |Order(backends, |backends|)| && Usable(backends[Order(backends, |backends|)[k]])
    requires forall m :: 0 <= m < k ==> !Usable(backends[Order(backends, |backends|)[m]])
    ensures BestUsable(backends, Some(Order(backends, |backends|)[k]))
  {
    var order := Order(backends, |backends|);
    OrderSorts(backends, |backends|);
    forall j | 0 <= j < |backends| && Usable(backends[j]) && j != order[k] ensures Before(backends, order[k], j) {
      assert j in order;
      var m :| 0 <= m < |order| && order[m] == j;
      assert k < m;
    }
  }

  lemma {:induction false} NoneInOrder(backends: seq<Backend>)
    requires forall m :: 0 <= m < |Order(backends, |backends|)| ==> !Usable(backends[Order(backends, |backends|)[m]])
    ensures BestUsable(backends, None)
  {
    OrderSorts(backends, |backends|);
    forall j | 0 <= j < |backends| ensures !Usable(backends[j]) {
      assert j in Order(backends, |backends|);
    }
  }
}
