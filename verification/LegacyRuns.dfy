/** The legacy router over whole runs: its accounts, and where `select` sends a request. */
module LegacyRuns {
  import opened LegacyRouter

  /** A request that was admitted and has not been released. */
  datatype Ticket = Ticket(backend: nat, sid: Option<Sid>)

  datatype World = World(s: State, out: seq<Ticket>)

  /** Requests come and go, the probe reports, leases are cleaned up, in any order.  A release is always that of
      an admitted request. */
  datatype Event =
    | Ask(sid: Option<Sid>, force: Option<string>, vision: bool, choice: Option<nat>, now: real, later: real)
    | Done(ticket: nat, now: real, later: real)
    | Probe(backend: nat, healthy: bool, busy: nat)
    | CleanupNow(now: real)

  function Start(backends: seq<Backend>): World {
    var idle := seq(|backends|, i requires 0 <= i < |backends| => backends[i].(busy := 0, inflight := 0));
    World(State(idle, map[], map[]), [])
  }

  ghost predicate Fits(w: World, e: Event) {
    match e
    case Ask(sid, force, vision, choice, now, _) => Picks(Cleanup(w.s, now), sid, force, vision, choice)
    case Done(ticket, _, _) => ticket < |w.out| && w.out[ticket].backend < |w.s.backends|
    case Probe(backend, _, _) => backend < |w.s.backends|
    case CleanupNow(_) => true
  }

  /** An event that does not fit, such as a choice `select` would not make, is none. */
  ghost function Next(w: World, e: Event, ttl: real): World {
    if !Fits(w, e) then w
    else
    match e
    case Ask(sid, _, _, choice, now, later) =>
      if choice.None? || choice.value >= |w.s.backends| then w.(s := Cleanup(w.s, now))
      else World(Admit(Cleanup(w.s, now), choice.value, sid, later, ttl), w.out + [Ticket(choice.value, Named(sid))])
    case Done(k, now, later) =>
      World(Cleanup(Returned(w.s, w.out[k].backend, w.out[k].sid, later, ttl), now), w.out[..k] + w.out[k + 1..])
    case Probe(i, healthy, busy) =>
      w.(s := w.s.(backends := w.s.backends[i := w.s.backends[i].(healthy := healthy, busy := busy)]))
    case CleanupNow(now) => w.(s := Cleanup(w.s, now))
  }

  ghost function After(backends: seq<Backend>, events: seq<Event>, ttl: real): World {
    if |events| == 0 then Start(backends)
    else Next(After(backends, events[..|events| - 1], ttl), events[|events| - 1], ttl)
  }

  // ---------------------------------------------------------------- accounts

  function OnBackend(out: seq<Ticket>, i: nat): nat {
    if |out| == 0 then 0 else OnBackend(out[..|out| - 1], i) + if out[|out| - 1].backend == i then 1 else 0
  }

  function OfSession(out: seq<Ticket>, sid: Sid): nat {
    if |out| == 0 then 0 else OfSession(out[..|out| - 1], sid) + if out[|out| - 1].sid == Some(sid) then 1 else 0
  }

  lemma {:induction false} CutOne(out: seq<Ticket>, k: nat)
    requires k < |out|
    ensures forall i ::
      OnBackend(out[..k] + out[k + 1..], i) == OnBackend(out, i) - if out[k].backend == i then 1 else 0
    ensures forall sid ::
      OfSession(out[..k] + out[k + 1..], sid) == OfSession(out, sid) - if out[k].sid == Some(sid) then 1 else 0
    decreases |out|
  {
    var n := |out| - 1;
    var cut := out[..k] + out[k + 1..];
    if k == n {
      assert cut == out[..n];
    } else {
      CutOne(out[..n], k);
      assert cut[..|cut| - 1] == out[..n][..k] + out[..n][k + 1..];
      assert cut[|cut| - 1] == out[n];
    }
  }

  lemma {:induction false} AddOne(out: seq<Ticket>, t: Ticket)
    ensures forall i :: OnBackend(out + [t], i) == OnBackend(out, i) + if t.backend == i then 1 else 0
    ensures forall sid :: OfSession(out + [t], sid) == OfSession(out, sid) + if t.sid == Some(sid) then 1 else 0
  {
    assert (out + [t])[..|out|] == out;
  }

  /** Each backend's in-flight number is that of its outstanding requests, within its cap. */
  ghost predicate BackendsExact(backends: seq<Backend>, out: seq<Ticket>) {
    && (forall i :: 0 <= i < |backends| ==> backends[i].inflight == OnBackend(out, i) && backends[i].busy >= 0)
    && (forall i :: 0 <= i < |backends| ==> OnBackend(out, i) == 0 || OnBackend(out, i) <= backends[i].cap)
    && (forall k :: 0 <= k < |out| ==> out[k].backend < |backends| && Named(out[k].sid) == out[k].sid)
  }

  /** Each session's number is that of its outstanding requests, and a session with any has its lease. */
  ghost predicate SessionsExact(s: State, out: seq<Ticket>) {
    forall sid :: CountOf(s.counts, sid) == OfSession(out, sid) && (OfSession(out, sid) > 0 ==> sid in s.sessions)
  }

  ghost predicate Inv(w: World) {
    BackendsExact(w.s.backends, w.out) && SessionsExact(w.s, w.out)
  }

  lemma {:induction false} CleanupKeepsInv(s: State, out: seq<Ticket>, now: real)
    requires SessionsExact(s, out)
    ensures SessionsExact(Cleanup(s, now), out) && Cleanup(s, now).backends == s.backends
  {
    forall sid
      ensures CountOf(Cleanup(s, now).counts, sid) == OfSession(out, sid)
      ensures OfSession(out, sid) > 0 ==> sid in Cleanup(s, now).sessions
    {
      assert CountOf(s.counts, sid) == OfSession(out, sid);
    }
  }

  lemma {:induction false} PicksUsable(s: State, sid: Option<Sid>, force: Option<string>, vision: bool, c: Option<nat>)
    requires Picks(s, sid, force, vision, c)
    ensures c.Some? ==> c.value < |s.backends| && Usable(s.backends[c.value])
  {
  }

  /** The runs leave nothing out: in every state that keeps the accounts `select` has an answer, for whatever request,
      and every release of an outstanding request, every probe of a backend and every cleanup may come. */
  lemma {:induction false} EveryCallMayCome(w: World, sid: Option<Sid>, force: Option<string>, vision: bool, now: real,
                                            later: real, k: nat, healthy: bool, busy: nat) returns (c: Option<nat>)
    requires Inv(w)
    ensures Fits(w, Ask(sid, force, vision, c, now, later)) && Fits(w, CleanupNow(now))
    ensures k < |w.out| ==> Fits(w, Done(k, now, later))
    ensures k < |w.s.backends| ==> Fits(w, Probe(k, healthy, busy))
  {
    var s := Cleanup(w.s, now);
    c := if PinOf(s, force, vision).Some? then PinOf(s, force, vision) else StickyOf(s, sid);
    if c.None? {
      c := BestExists(s.backends);
    }
  }

  lemma {:induction false} BestExists(backends: seq<Backend>) returns (c: Option<nat>)
    ensures BestUsable(backends, c)
    decreases |backends|
  {
    c := None;
    if |backends| > 0 {
      var n := |backends| - 1;
      var front := backends[..n];
      c := BestExists(front);
      assert forall i :: 0 <= i < n ==> front[i] == backends[i];
      if Usable(backends[n]) && (c.None? || backends[n].priority < backends[c.value].priority) {
        c := Some(n);
      }
    }
  }

  lemma {:induction false} AdmitKeepsInv(s: State, out: seq<Ticket>, c: nat, sid: Option<Sid>, later: real, ttl: real)
    requires BackendsExact(s.backends, out) && SessionsExact(s, out)
    requires c < |s.backends| && Usable(s.backends[c])
    ensures Inv(World(Admit(s, c, sid, later, ttl), out + [Ticket(c, Named(sid))]))
  {
    AddOne(out, Ticket(c, Named(sid)));
    assert BackendsExact(Admit(s, c, sid, later, ttl).backends, out + [Ticket(c, Named(sid))]) by {
      hide SessionsExact;
    }
    hide BackendsExact;
  }

  lemma {:induction false} ReturnKeepsBackends(s: State, out: seq<Ticket>, k: nat, later: real, ttl: real)
    requires BackendsExact(s.backends, out) && k < |out|
    ensures BackendsExact(Returned(s, out[k].backend, out[k].sid, later, ttl).backends, out[..k] + out[k + 1..])
  {
    var b := s.backends[out[k].backend];
    HasOne(out, k);
    assert Returned(s, out[k].backend, out[k].sid, later, ttl).backends
        == s.backends[out[k].backend := b.(inflight := b.inflight - 1)];
    hide Returned;
    CutOne(out, k);
    OneFewerKeepsBackends(s.backends, out, out[..k] + out[k + 1..], out[k].backend);
  }

  lemma {:induction false} OneFewerKeepsBackends(backends: seq<Backend>, out: seq<Ticket>, rest: seq<Ticket>, c: nat)
    requires BackendsExact(backends, out) && c < |backends| && OnBackend(out, c) > 0
    requires forall i :: OnBackend(rest, i) == OnBackend(out, i) - if c == i then 1 else 0
    requires forall k :: 0 <= k < |rest| ==> rest[k] in out
    ensures BackendsExact(backends[c := backends[c].(inflight := backends[c].inflight - 1)], rest)
  {
    hide OnBackend, Named;
  }

  lemma {:induction false} HasOne(out: seq<Ticket>, k: nat)
    requires k < |out|
    ensures OnBackend(out, out[k].backend) > 0
    ensures out[k].sid.Some? ==> OfSession(out, out[k].sid.value) > 0
    decreases |out|
  {
    if k < |out| - 1 {
      HasOne(out[..|out| - 1], k);
    }
  }

  lemma {:induction false} ReturnKeepsSessions(s: State, out: seq<Ticket>, k: nat, later: real, ttl: real)
    requires SessionsExact(s, out) && k < |out| && out[k].backend < |s.backends| && Named(out[k].sid) == out[k].sid
    ensures SessionsExact(Returned(s, out[k].backend, out[k].sid, later, ttl), out[..k] + out[k + 1..])
  {
    CutOne(out, k);
    HasOne(out, k);
    var t, rest := Returned(s, out[k].backend, out[k].sid, later, ttl), out[..k] + out[k + 1..];
    forall sid
      ensures CountOf(t.counts, sid) == OfSession(rest, sid) && (OfSession(rest, sid) > 0 ==> sid in t.sessions)
    {
      assert CountOf(s.counts, sid) == OfSession(out, sid);
    }
  }

  lemma {:induction false} NextKeepsInv(w: World, e: Event, ttl: real)
    requires Inv(w) && Fits(w, e)
    ensures Inv(Next(w, e, ttl))
  {
    match e
    case Ask(sid, force, vision, choice, now, later) =>
      CleanupKeepsInv(w.s, w.out, now);
      PicksUsable(Cleanup(w.s, now), sid, force, vision, choice);
      if choice.Some? {
        AdmitKeepsInv(Cleanup(w.s, now), w.out, choice.value, sid, later, ttl);
      }
    case Done(k, now, later) =>
      ReturnKeepsBackends(w.s, w.out, k, later, ttl);
      ReturnKeepsSessions(w.s, w.out, k, later, ttl);
      CleanupKeepsInv(Returned(w.s, w.out[k].backend, w.out[k].sid, later, ttl), w.out[..k] + w.out[k + 1..], now);
    case Probe(i, healthy, busy) =>
    case CleanupNow(now) => CleanupKeepsInv(w.s, w.out, now);
  }

  /** Over all runs: each backend's in-flight number equals its outstanding requests and stays within its cap,
      each session's count equals its outstanding requests, and no session with outstanding requests is without
      its lease. */
  lemma {:induction false} AccountsAreExact(backends: seq<Backend>, events: seq<Event>, ttl: real)
    ensures Inv(After(backends, events, ttl))
    decreases |events|
  {
    if |events| > 0 {
      var before, e := After(backends, events[..|events| - 1], ttl), events[|events| - 1];
      AccountsAreExact(backends, events[..|events| - 1], ttl);
      if Fits(before, e) {
        NextKeepsInv(before, e, ttl);
      }
    }
  }

  /** When everything admitted has been released, no backend and no session counts anything any more. */
  lemma {:induction false} AccountsDrain(backends: seq<Backend>, events: seq<Event>, ttl: real)
    requires After(backends, events, ttl).out == []
    ensures var s := After(backends, events, ttl).s;
      && (forall i :: 0 <= i < |s.backends| ==> s.backends[i].inflight == 0)
      && (forall sid :: CountOf(s.counts, sid) == 0)
  {
    AccountsAreExact(backends, events, ttl);
  }

  // ---------------------------------------------------------------- where a request goes

  /** Whichever of the three ways is taken, `select` finds nothing exactly when no backend is healthy with a
      free slot; and the backend it finds is determined by the state. */
  lemma {:induction false} NoneExactlyWhenNoneUsable(s: State, sid: Option<Sid>, force: Option<string>, vision: bool,
                                                    c: Option<nat>)
    requires Picks(s, sid, force, vision, c)
    ensures c.None? <==> forall i :: 0 <= i < |s.backends| ==> !Usable(s.backends[i])
    ensures c.Some? ==> c.value < |s.backends| && Usable(s.backends[c.value])
    ensures forall d :: Picks(s, sid, force, vision, d) ==> d == c
  {
    forall d | Picks(s, sid, force, vision, d) ensures d == c {
      if PinOf(s, force, vision).None? && StickyOf(s, sid).None? {
        BestIsUnique(s.backends, c, d);
      }
    }
  }

  lemma {:induction false} BestIsUnique(backends: seq<Backend>, c: Option<nat>, d: Option<nat>)
    requires BestUsable(backends, c) && BestUsable(backends, d)
    ensures c == d
  {
  }

  /** The session named `sid` holds a lease on the backend at `i`. */
  predicate LeasedTo(s: State, sid: Option<Sid>, i: nat) {
    && Named(sid).Some? && Named(sid).value in s.sessions
    && i < |s.backends| && s.sessions[Named(sid).value].backend == s.backends[i].name
  }

  /** A request without images goes to its session's backend exactly when the lease survived the cleanup and
      that backend is usable; otherwise to the usable backend of least priority number, the first of equals. */
  lemma {:induction false} StickyElsePriority(s: State, sid: Option<Sid>, force: Option<string>, c: Option<nat>)
    requires DistinctNames(s.backends) && Picks(s, sid, force, false, c)
    ensures forall i: nat :: LeasedTo(s, sid, i) && Usable(s.backends[i]) ==> c == Some(i)
    ensures (forall i: nat :: LeasedTo(s, sid, i) ==> !Usable(s.backends[i])) ==> BestUsable(s.backends, c)
  {
    forall i: nat | LeasedTo(s, sid, i) ensures ByName(s.backends, s.backends[i].name) == Some(i) {
      var at := ByName(s.backends, s.backends[i].name);
      assert at.Some?;
    }
    if StickyOf(s, sid).Some? {
      assert LeasedTo(s, sid, StickyOf(s, sid).value);
    }
  }

  /** An image request goes to the forced backend whenever that one is usable, lease or not; when it is not,
      the request is routed like any other. */
  lemma {:induction false} VisionPinned(s: State, sid: Option<Sid>, force: string, i: nat, c: Option<nat>)
    requires DistinctNames(s.backends) && i < |s.backends| && s.backends[i].name == force && force != ""
    requires Picks(s, sid, Some(force), true, c)
    ensures Usable(s.backends[i]) ==> c == Some(i)
    ensures !Usable(s.backends[i]) ==> Picks(s, sid, None, false, c)
  {
    var at := ByName(s.backends, force);
    assert at == Some(i);
  }

  /** While a session has requests out, no cleanup takes its lease, however old. */
  lemma {:induction false} LeaseSurvivesUse(w: World, sid: Sid, now: real)
    requires Inv(w) && OfSession(w.out, sid) > 0
    ensures sid in Cleanup(w.s, now).sessions && Cleanup(w.s, now).sessions[sid] == w.s.sessions[sid]
  {
    assert CountOf(w.s.counts, sid) == OfSession(w.out, sid);
  }

  // ---------------------------------------------------------------- routing over whole runs

  /** The backend of the session's latest admitted request, from the run alone. */
  ghost function LastPlace(backends: seq<Backend>, events: seq<Event>, ttl: real, sid: Sid): Option<nat> {
    if |events| == 0 then None
    else
      var before, e := events[..|events| - 1], events[|events| - 1];
      NextPlace(After(backends, before, ttl), e, sid, LastPlace(backends, before, ttl, sid))
  }

  ghost function NextPlace(w: World, e: Event, sid: Sid, place: Option<nat>): Option<nat> {
    if Fits(w, e) && e.Ask? && Named(e.sid) == Some(sid) && e.choice.Some? then e.choice else place
  }

  predicate LeaseIsAt(s: State, sid: Sid, backends: seq<Backend>, place: Option<nat>) {
    sid in s.sessions ==>
      place.Some? && place.value < |backends| && s.sessions[sid].backend == backends[place.value].name
  }

  /** Backends are never renamed, added or dropped, and a session's lease is where its latest request went. */
  ghost predicate LeasesFollow(backends: seq<Backend>, events: seq<Event>, ttl: real) {
    var s := After(backends, events, ttl).s;
    && |s.backends| == |backends|
    && (forall i :: 0 <= i < |backends| ==> SameBackend(s.backends[i], backends[i]))
    && (forall sid :: LeaseIsAt(s, sid, backends, LastPlace(backends, events, ttl, sid)))
  }

  predicate SameBackend(b: Backend, configured: Backend) {
    b.name == configured.name && b.priority == configured.priority && b.cap == configured.cap
  }

  lemma {:induction false} AlwaysFollow(backends: seq<Backend>, events: seq<Event>, ttl: real)
    ensures LeasesFollow(backends, events, ttl)
    decreases |events|
  {
    if |events| > 0 {
      var before, e := events[..|events| - 1], events[|events| - 1];
      AlwaysFollow(backends, before, ttl);
      var w := After(backends, before, ttl);
      ConfigStays(w, e, ttl, backends);
      hide Next, SameBackend, LeaseIsAt, NextPlace;
      forall sid ensures LeaseIsAt(Next(w, e, ttl).s, sid, backends, LastPlace(backends, events, ttl, sid)) {
        assert LeaseIsAt(w.s, sid, backends, LastPlace(backends, before, ttl, sid));
        LeaseFollows(w, e, ttl, backends, sid, LastPlace(backends, before, ttl, sid));
      }
    }
  }

  lemma {:induction false} LeaseFollows(w: World, e: Event, ttl: real, backends: seq<Backend>, sid: Sid,
                                        place: Option<nat>)
    requires |w.s.backends| == |backends|
    requires forall i :: 0 <= i < |backends| ==> SameBackend(w.s.backends[i], backends[i])
    requires LeaseIsAt(w.s, sid, backends, place)
    ensures LeaseIsAt(Next(w, e, ttl).s, sid, backends, NextPlace(w, e, sid, place))
  {
    if Fits(w, e) && e.Ask? {
      PicksUsable(Cleanup(w.s, e.now), e.sid, e.force, e.vision, e.choice);
    }
    hide Picks;
  }

  lemma {:induction false} ConfigStays(w: World, e: Event, ttl: real, backends: seq<Backend>)
    requires |w.s.backends| == |backends|
    requires forall i :: 0 <= i < |backends| ==> SameBackend(w.s.backends[i], backends[i])
    ensures |Next(w, e, ttl).s.backends| == |backends|
    ensures forall i :: 0 <= i < |backends| ==> SameBackend(Next(w, e, ttl).s.backends[i], backends[i])
  {
    hide Picks;
  }

  // ---------------------------------------------------------------- when a lease runs out

  /** When the session was last let in, or a request of it given back where it was last let in; from the run alone. */
  ghost function LastUse(backends: seq<Backend>, events: seq<Event>, ttl: real, sid: Sid): Option<real> {
    if |events| == 0 then None
    else
      var before, e := events[..|events| - 1], events[|events| - 1];
      NextUse(backends, After(backends, before, ttl), e, sid, LastPlace(backends, before, ttl, sid),
              LastUse(backends, before, ttl, sid))
  }

  ghost function NextUse(backends: seq<Backend>, w: World, e: Event, sid: Sid, place: Option<nat>, use: Option<real>)
    : Option<real>
  {
    if !Fits(w, e) then use
    else
      match e
      case Ask(_, _, _, choice, _, later) => if Named(e.sid) == Some(sid) && choice.Some? then Some(later) else use
      case Done(k, _, later) =>
        if w.out[k].sid == Some(sid) && place.Some? && place.value < |backends| && w.out[k].backend < |backends|
           && backends[w.out[k].backend].name == backends[place.value].name
        then Some(later) else use
      case _ => use
  }

  predicate ExpiresAfter(s: State, sid: Sid, use: Option<real>, ttl: real) {
    sid in s.sessions ==> use.Some? && s.sessions[sid].expiresAt == use.value + ttl
  }

  /** A lease lasts for the session's time to live from its last use, and no event moves its end otherwise. */
  lemma {:induction false} LeasesExpireAfterUse(backends: seq<Backend>, events: seq<Event>, ttl: real, sid: Sid)
    ensures ExpiresAfter(After(backends, events, ttl).s, sid, LastUse(backends, events, ttl, sid), ttl)
    decreases |events|
  {
    if |events| > 0 {
      var before, e := events[..|events| - 1], events[|events| - 1];
      var w, place := After(backends, before, ttl), LastPlace(backends, before, ttl, sid);
      LeasesExpireAfterUse(backends, before, ttl, sid);
      AlwaysFollow(backends, before, ttl);
      AccountsAreExact(backends, before, ttl);
      assert LeaseIsAt(w.s, sid, backends, place);
      hide After, Next, Fits, SameBackend, LeaseIsAt, LastPlace, Inv;
      ExpiryFollows(backends, w, e, ttl, sid, place, LastUse(backends, before, ttl, sid));
    }
  }

  lemma {:induction false} ExpiryFollows(backends: seq<Backend>, w: World, e: Event, ttl: real, sid: Sid,
                                         place: Option<nat>, use: Option<real>)
    requires Inv(w) && |w.s.backends| == |backends|
    requires forall i :: 0 <= i < |backends| ==> SameBackend(w.s.backends[i], backends[i])
    requires LeaseIsAt(w.s, sid, backends, place) && ExpiresAfter(w.s, sid, use, ttl)
    ensures ExpiresAfter(Next(w, e, ttl).s, sid, NextUse(backends, w, e, sid, place, use), ttl)
  {
    if Fits(w, e) && e.Ask? {
      PicksUsable(Cleanup(w.s, e.now), e.sid, e.force, e.vision, e.choice);
    }
    if Fits(w, e) && e.Done? {
      assert Named(w.out[e.ticket].sid) == w.out[e.ticket].sid;
    }
    hide Picks, Inv;
  }

  /** No clock of the run has been read later than `now`. */
  predicate ReadBy(e: Event, now: real) {
    match e
    case Ask(_, _, _, _, at, later) => at <= now && later <= now
    case Done(_, at, later) => at <= now && later <= now
    case Probe(_, _, _) => true
    case CleanupNow(at) => at <= now
  }

  predicate AllReadBy(events: seq<Event>, now: real) {
    forall i :: 0 <= i < |events| ==> ReadBy(events[i], now)
  }

  /** Within its time to live from its last use a session is leased: nothing has dropped it. */
  lemma {:induction false} LeasedWithinTtl(backends: seq<Backend>, events: seq<Event>, ttl: real, sid: Sid, now: real)
    requires AllReadBy(events, now)
    requires var use := LastUse(backends, events, ttl, sid); use.Some? && now < use.value + ttl
    ensures sid in After(backends, events, ttl).s.sessions
    decreases |events|
  {
    var before, e := events[..|events| - 1], events[|events| - 1];
    var w, place, use := After(backends, before, ttl), LastPlace(backends, before, ttl, sid),
                         LastUse(backends, before, ttl, sid);
    AccountsAreExact(backends, before, ttl);
    AlwaysFollow(backends, before, ttl);
    assert LeaseIsAt(w.s, sid, backends, place);
    LeasesExpireAfterUse(backends, before, ttl, sid);
    assert ReadBy(e, now) && After(backends, events, ttl) == Next(w, e, ttl);
    var used := NextUse(backends, w, e, sid, place, use);
    if use.Some? && now < use.value + ttl {
      LeasedWithinTtl(backends, before, ttl, sid, now);
    }
    hide After, LastUse, LastPlace, Inv, SameBackend;
    UseKeepsLease(backends, w, e, ttl, sid, place, use, now);
  }

  lemma {:induction false} UseKeepsLease(backends: seq<Backend>, w: World, e: Event, ttl: real, sid: Sid,
                                         place: Option<nat>, use: Option<real>, now: real)
    requires Inv(w) && ReadBy(e, now) && ExpiresAfter(w.s, sid, use, ttl) && LeaseIsAt(w.s, sid, backends, place)
    requires |w.s.backends| == |backends|
    requires forall i :: 0 <= i < |backends| ==> SameBackend(w.s.backends[i], backends[i])
    requires use.Some? && now < use.value + ttl ==> sid in w.s.sessions
    requires var used := NextUse(backends, w, e, sid, place, use); used.Some? && now < used.value + ttl
    ensures sid in Next(w, e, ttl).s.sessions
  {
    if Fits(w, e) && e.Ask? {
      PicksUsable(Cleanup(w.s, e.now), e.sid, e.force, e.vision, e.choice);
    }
    if Fits(w, e) && e.Done? && w.out[e.ticket].sid == Some(sid) {
      HasOne(w.out, e.ticket);
      assert CountOf(w.s.counts, sid) == OfSession(w.out, sid) > 0;
      assert Named(w.out[e.ticket].sid) == w.out[e.ticket].sid;
    }
    hide Picks, Inv;
  }

  /** Healthy, and what the backend reports busy together with the requests out there leaves a slot. */
  ghost predicate HasRoom(w: World, i: nat)
    requires i < |w.s.backends|
  {
    w.s.backends[i].healthy && w.s.backends[i].busy + OnBackend(w.out, i) < w.s.backends[i].cap
  }

  lemma {:induction false} RoomIsUsable(backends: seq<Backend>, events: seq<Event>, ttl: real, i: nat)
    requires i < |After(backends, events, ttl).s.backends|
    ensures Usable(After(backends, events, ttl).s.backends[i]) <==> HasRoom(After(backends, events, ttl), i)
  {
    AccountsAreExact(backends, events, ttl);
  }

  /** At any point of any run, by whichever of the three ways, `select` refuses if and only if every backend is
      unhealthy or filled by what it reports and the requests admitted there and not yet released. */
  lemma {:induction false} RefusesExactlyWhenFull(backends: seq<Backend>, events: seq<Event>, ttl: real,
                                                 sid: Option<Sid>, force: Option<string>, vision: bool,
                                                 c: Option<nat>, now: real)
    requires Picks(Cleanup(After(backends, events, ttl).s, now), sid, force, vision, c)
    ensures var w := After(backends, events, ttl);
      && (c.None? <==> forall i :: 0 <= i < |w.s.backends| ==> !HasRoom(w, i))
      && (c.Some? ==> c.value < |w.s.backends| && HasRoom(w, c.value))
  {
    var w := After(backends, events, ttl);
    NoneExactlyWhenNoneUsable(Cleanup(w.s, now), sid, force, vision, c);
    forall i | 0 <= i < |w.s.backends| ensures Usable(w.s.backends[i]) <==> HasRoom(w, i) {
      RoomIsUsable(backends, events, ttl, i);
    }
  }

  /** Stickiness over whole runs: a request without images of a session with requests out, or with a lease not run
      out, goes where that session's latest request went whenever there is room; otherwise, or without a lease, to
      the backend with room of least priority number. */
  lemma {:induction false} SessionStaysWhereItWas(backends: seq<Backend>, events: seq<Event>, ttl: real, sid: Sid,
                                                 force: Option<string>, c: Option<nat>, now: real)
    requires DistinctNames(backends) && sid != ""
    requires Picks(Cleanup(After(backends, events, ttl).s, now), Some(sid), force, false, c)
    ensures var w, place := After(backends, events, ttl), LastPlace(backends, events, ttl, sid);
      var leased := OfSession(w.out, sid) > 0 || (sid in w.s.sessions && w.s.sessions[sid].expiresAt > now);
      && (leased ==> place.Some? && place.value < |w.s.backends|)
      && (if leased && HasRoom(w, place.value) then c == place else BestUsable(w.s.backends, c))
  {
    var w, place := After(backends, events, ttl), LastPlace(backends, events, ttl, sid);
    AccountsAreExact(backends, events, ttl);
    AlwaysFollow(backends, events, ttl);
    assert CountOf(w.s.counts, sid) == OfSession(w.out, sid);
    assert LeaseIsAt(w.s, sid, backends, place);
    hide After, LastPlace, Inv, OfSession;
    var s := Cleanup(w.s, now);
    StickyElsePriority(s, Some(sid), force, c);
    if sid in s.sessions {
      RoomIsUsable(backends, events, ttl, place.value);
      assert LeasedTo(s, Some(sid), place.value);
    }
  }

  /** The same in terms of the run alone, on a clock that never goes back: a request without images goes where the
      session's latest request went whenever there is room, if requests of it are out or its last use is less than the
      time to live ago; otherwise to the backend with room of least priority number. */
  lemma {:induction false} SessionStaysWithinTtl(backends: seq<Backend>, events: seq<Event>, ttl: real, sid: Sid,
                                                 force: Option<string>, c: Option<nat>, now: real)
    requires DistinctNames(backends) && sid != "" && AllReadBy(events, now)
    requires Picks(Cleanup(After(backends, events, ttl).s, now), Some(sid), force, false, c)
    ensures var w, place := After(backends, events, ttl), LastPlace(backends, events, ttl, sid);
      var use := LastUse(backends, events, ttl, sid);
      var leased := OfSession(w.out, sid) > 0 || (use.Some? && now - use.value < ttl);
      && (leased ==> place.Some? && place.value < |w.s.backends|)
      && (if leased && HasRoom(w, place.value) then c == place else BestUsable(w.s.backends, c))
  {
    SessionStaysWhereItWas(backends, events, ttl, sid, force, c, now);
    LeasesExpireAfterUse(backends, events, ttl, sid);
    var use := LastUse(backends, events, ttl, sid);
    if use.Some? && now - use.value < ttl {
      LeasedWithinTtl(backends, events, ttl, sid, now);
    }
    hide Picks, Cleanup, HasRoom, BestUsable;
  }

  /** An image request at any point of any run goes to the vision backend whenever that has room. */
  lemma {:induction false} ImagesGoToVision(backends: seq<Backend>, events: seq<Event>, ttl: real, sid: Option<Sid>,
                                           i: nat, c: Option<nat>, now: real)
    requires DistinctNames(backends) && i < |backends| && backends[i].name != ""
    requires Picks(Cleanup(After(backends, events, ttl).s, now), sid, Some(backends[i].name), true, c)
    ensures var w := After(backends, events, ttl);
      && i < |w.s.backends|
      && (HasRoom(w, i) ==> c == Some(i))
      && (!HasRoom(w, i) ==> Picks(Cleanup(w.s, now), sid, None, false, c))
  {
    AlwaysFollow(backends, events, ttl);
    RoomIsUsable(backends, events, ttl, i);
    VisionPinned(Cleanup(After(backends, events, ttl).s, now), sid, backends[i].name, i, c);
  }

  /** A leased session does not keep its slot on a backend that reports itself busy: with a request out and its lease
      there, on the only backend, which is healthy, its next request is refused. */
  lemma {:induction false} BusyBackendTurnsItsSessionAway(b: Backend, sid: Sid, ttl: real, now: real)
    requires b.healthy && b.cap >= 1 && sid != ""
    ensures exists events: seq<Event> :: TurnedAway(After([b], events, ttl), b.name, sid, now)
  {
    var ask, busy := Ask(Some(sid), None, false, Some(0), now, now), Probe(0, true, b.cap);
    var events := [ask, busy];
    assert events[..1] == [ask] && |[ask][..0]| == 0;
    FirstAsk(b, sid, ttl, now);
    ThenBusy(After([b], [ask], ttl), b, sid, ttl, now);
    hide Next, TurnedAway;
    assert After([b], events, ttl) == Next(After([b], [ask], ttl), busy, ttl);
  }

  /** After one request of the session. */
  ghost function OneOut(b: Backend, sid: Sid, until: real): World {
    var s := State([b.(busy := 0, inflight := 1)], map[sid := Lease(b.name, until)], map[sid := 1]);
    World(s, [Ticket(0, Some(sid))])
  }

  lemma {:induction false} FirstAsk(b: Backend, sid: Sid, ttl: real, now: real)
    requires b.healthy && b.cap >= 1 && sid != ""
    ensures After([b], [Ask(Some(sid), None, false, Some(0), now, now)], ttl) == OneOut(b, sid, now + ttl)
  {
    var ask := Ask(Some(sid), None, false, Some(0), now, now);
    var w0 := Start([b]);
    assert |[ask][..0]| == 0 && After([b], [], ttl) == w0;
    assert w0.s.backends == [b.(busy := 0, inflight := 0)];
    assert Cleanup(w0.s, now) == w0.s;
    assert Usable(w0.s.backends[0]) && BestUsable(w0.s.backends, Some(0));
    assert Fits(w0, ask);
    hide After;
    assert [b.(busy := 0, inflight := 0)][0 := b.(busy := 0, inflight := 1)] == [b.(busy := 0, inflight := 1)];
    assert Next(w0, ask, ttl) == OneOut(b, sid, now + ttl);
  }

  lemma {:induction false} ThenBusy(w: World, b: Backend, sid: Sid, ttl: real, now: real)
    requires b.cap >= 1 && w == OneOut(b, sid, now + ttl)
    ensures TurnedAway(Next(w, Probe(0, true, b.cap), ttl), b.name, sid, now)
  {
    assert |w.out[..0]| == 0 && OfSession(w.out, sid) == 1;
    var w' := Next(w, Probe(0, true, b.cap), ttl);
    assert w'.s.backends == [b.(busy := b.cap, inflight := 1, healthy := true)];
    assert !Usable(w'.s.backends[0]);
    assert Cleanup(w'.s, now).backends == w'.s.backends;
  }

  ghost predicate TurnedAway(w: World, name: string, sid: Sid, now: real) {
    && OfSession(w.out, sid) > 0 && sid in w.s.sessions && w.s.sessions[sid].backend == name
    && |w.s.backends| == 1 && w.s.backends[0].name == name && w.s.backends[0].healthy
    && Picks(Cleanup(w.s, now), Some(sid), None, false, None)
  }
}
