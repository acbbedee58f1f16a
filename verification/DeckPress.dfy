/** From the key to the window: `DeviceLoop.press` and the drawing loop of
    `opencode-deck/opencode-deck/ocdeck/device.py`, and `Broker.handle_press` of `.../ocdeck/broker.py`. */
module DeckPress {
  import opened DeckAnswers
  import opened DeckModel
  import opened DeckRuns
  import opened DeckRegistry

  const QUEUE_SIZE: nat := 64
  const DEBOUNCE: real := 0.2
  const NEVER: real := -100.0

  /** What a key is drawn from; a key whose look has not changed is not drawn again. */
  datatype Look = Look(state: Appearance, title: string, phase: int)

  function LookOf(v: View, phase: int): Look {
    Look(v.state, v.title, if v.state != Off then phase else 0)
  }

  /** With nobody registered the first key invites the first instance. */
  function WithReady(views: seq<View>, ready: bool): (shown: seq<View>)
    ensures |shown| == |views|
    ensures forall k :: 0 <= k < |views| ==>
      shown[k].(state := Off) == views[k].(state := Off)
    ensures forall k :: 0 <= k < |views| ==>
      shown[k].state ==
        if k == 0 && ready && (forall j :: 0 <= j < |views| ==> views[j].id.None?) then Ready else views[k].state
  {
    if |views| > 0 && ready && forall k :: 0 <= k < |views| ==> views[k].id.None? then
      views[0 := views[0].(state := Ready)]
    else views
  }

  class PressQueue {
    var items: seq<View>

    constructor ()
      ensures items == []
    {
      items := [];
    }

    /** A full queue drops the press. */
    method Put(v: View)
      modifies this
      ensures items == if |old(items)| < 64 then old(items) + [v] else old(items)
    {
      if |items| < QUEUE_SIZE {
        items := items + [v];
      }
    }
  }

  class DeviceLoop {
    const presses: PressQueue
    var presented: seq<Option<View>>
    var last: map<nat, Look>

    ghost predicate Valid()
      reads this
    {
      Matching(presented, last)
    }

    constructor (presses: PressQueue)
      ensures Valid() && this.presses == presses && forall k :: 0 <= k < SLOTS ==> presented[k].None?
    {
      this.presses := presses;
      presented := seq(SLOTS, _ => None);
      last := map[];
    }

    /** A key went down or up: a key that is drawn queues the view it was drawn from. */
    method Press(key: int, down: bool)
      requires Valid()
      modifies presses
      ensures var queue := old(presses.items);
        presses.items ==
          if down && 0 <= key < 6 && presented[key].Some? && |queue| < 64
          then queue + [presented[key].value] else queue
    {
      if !down || !(0 <= key < SLOTS) {
        return;
      }
      if presented[key].Some? {
        presses.Put(presented[key].value);
      }
    }

    /** One pass over the keys.  A key whose look is unchanged keeps the view it had; after the pass every key
        shows the state and title of its view.  `failsAt` is the key whose write raises, if one does: the
        device is then given up and nothing counts as drawn. */
    method Draw(views: seq<View>, phase: int, failsAt: Option<nat>) returns (online: bool)
      requires Valid() && |views| == SLOTS
      modifies this
      ensures Valid()
      ensures online ==> forall k :: 0 <= k < SLOTS ==>
        && k in last && last[k] == LookOf(views[k], phase)
        && presented[k] == AfterDraw(old(presented)[k], Looks(old(last), k, LookOf(views[k], phase)), views[k])
      ensures !online ==> last == map[] && forall k :: 0 <= k < SLOTS ==> presented[k].None?
      ensures online <==> failsAt.None? || failsAt.value >= SLOTS ||
                          Looks(old(last), failsAt.value, LookOf(views[failsAt.value], phase))
    {
      ghost var last0, presented0 := last, presented;
      hide DrawnTo;
      DrawnNothing(last, presented, views, phase);
      for k := 0 to SLOTS
        invariant |presented| == SLOTS && DrawnTo(last0, presented0, last, presented, views, phase, k)
        invariant failsAt.Some? && failsAt.value < k ==>
          Looks(last0, failsAt.value, LookOf(views[failsAt.value], phase))
      {
        var look := LookOf(views[k], phase);
        DrawnOneMore(last0, presented0, last, presented, views, phase, k);
        if Looks(last, k, look) {
          continue;
        }
        if failsAt == Some(k) {
          presented := seq(SLOTS, _ => None);
          last := map[];
          return false;
        }
        presented := presented[k := Some(views[k])];
        last := last[k := look];
      }
      DrawnMatches(last0, presented0, last, presented, views, phase);
      return true;
    }
  }

  /** A key has a presented view exactly when it has been drawn, and the view is of what was drawn. */
  ghost predicate Matching(presented: seq<Option<View>>, last: map<nat, Look>) {
    |presented| == SLOTS
    && (forall k :: k in last ==> k < SLOTS)
    && forall k :: 0 <= k < SLOTS ==>
         (presented[k].Some? <==> k in last)
         && (k in last ==> presented[k].value.state == last[k].state && presented[k].value.title == last[k].title)
  }

  /** A pass over the keys has come to `n`: those before it show their views, the others are as they were. */
  ghost predicate DrawnTo(last0: map<nat, Look>, presented0: seq<Option<View>>, last: map<nat, Look>,
                          presented: seq<Option<View>>, views: seq<View>, phase: int, n: nat)
    requires |views| == |presented0| == SLOTS
  {
    && |presented| == SLOTS && (forall k :: k in last ==> k < SLOTS)
    && (forall k: nat :: k < n && k < SLOTS ==>
          && Looks(last, k, LookOf(views[k], phase))
          && presented[k] == AfterDraw(presented0[k], Looks(last0, k, LookOf(views[k], phase)), views[k]))
    && (forall k: nat :: n <= k < SLOTS ==>
          presented[k] == presented0[k] && (k in last <==> k in last0) && (k in last ==> last[k] == last0[k]))
  }

  lemma {:induction false} DrawnNothing(last: map<nat, Look>, presented: seq<Option<View>>, views: seq<View>,
                                        phase: int)
    requires Matching(presented, last) && |views| == SLOTS
    ensures DrawnTo(last, presented, last, presented, views, phase, 0)
  {
  }

  lemma {:induction false} DrawnOneMore(last0: map<nat, Look>, presented0: seq<Option<View>>, last: map<nat, Look>,
                                        presented: seq<Option<View>>, views: seq<View>, phase: int, n: nat)
    requires |views| == |presented0| == |presented| == SLOTS && n < SLOTS
    requires DrawnTo(last0, presented0, last, presented, views, phase, n)
    ensures var look := LookOf(views[n], phase);
      && (Looks(last, n, look) <==> Looks(last0, n, look))
      && (Looks(last, n, look) ==> DrawnTo(last0, presented0, last, presented, views, phase, n + 1))
      && (!Looks(last, n, look) ==>
            DrawnTo(last0, presented0, last[n := look], presented[n := Some(views[n])], views, phase, n + 1))
  {
    hide LookOf;
  }

  lemma {:induction false} DrawnMatches(last0: map<nat, Look>, presented0: seq<Option<View>>, last: map<nat, Look>,
                                        presented: seq<Option<View>>, views: seq<View>, phase: int)
    requires Matching(presented0, last0) && |views| == SLOTS
    requires DrawnTo(last0, presented0, last, presented, views, phase, SLOTS)
    ensures Matching(presented, last)
    ensures forall k :: 0 <= k < SLOTS ==>
      && Looks(last, k, LookOf(views[k], phase))
      && presented[k] == AfterDraw(presented0[k], Looks(last0, k, LookOf(views[k], phase)), views[k])
  {
  }

  predicate Looks(last: map<nat, Look>, k: nat, look: Look) {
    k in last && last[k] == look
  }

  function AfterDraw(before: Option<View>, same: bool, v: View): Option<View> {
    if same then before else Some(v)
  }

  datatype Outcome = EmptyOrStale | Debounced | Focus(record: Record)

  /** What a press comes to, and when each registered id was last let through. */
  function Handle(s: State, lastPress: map<Id, real>, slot: Option<int>, generation: Option<int>, id: Option<Id>,
                  verdict: Verdict, now: real): (Outcome, map<Id, real>)
    requires |s.slots| == |s.generations| == SLOTS
  {
    var r := Resolve(s, slot, generation, id, verdict);
    if r.None? then (EmptyOrStale, lastPress)
    else
      var before := if r.value.id in lastPress then lastPress[r.value.id] else NEVER;
      if now - before < DEBOUNCE then (Debounced, lastPress)
      else (Focus(r.value), lastPress[r.value.id := now])
  }

  class Broker {
    const registry: Registry
    var lastPress: map<Id, real>

    constructor (registry: Registry)
      ensures this.registry == registry && lastPress == map[]
    {
      this.registry := registry;
      lastPress := map[];
    }

    /** Focuses the record the press is for, unless the press is stale or comes too soon after another. */
    method HandlePress(slot: Option<int>, generation: Option<int>, id: Option<Id>, verdict: Verdict, now: real)
      returns (outcome: Outcome)
      requires registry.Valid()
      modifies this
      ensures (outcome, lastPress)
           == Handle(registry.Value(), old(lastPress), slot, generation, id, verdict, now)
      ensures outcome.Focus? ==> verdict == Alive && lastPress == old(lastPress)[outcome.record.id := now]
      ensures !outcome.Focus? ==> lastPress == old(lastPress)
    {
      var r := registry.Resolve(slot, generation, id, verdict);
      if r.None? {
        return EmptyOrStale;
      }
      var before := if r.value.id in lastPress then lastPress[r.value.id] else NEVER;
      if now - before < DEBOUNCE {
        return Debounced;
      }
      lastPress := lastPress[r.value.id := now];
      return Focus(r.value);
    }
  }

  // ---------------------------------------------------------------- the whole path

  /** The registry's history together with every view on its way from a drawing to a focus: those the device
      loop read, those on the keys, and those pressed and queued. */
  datatype World = World(events: seq<Event>, views: seq<View>, presented: seq<Option<View>>, queue: seq<View>)

  datatype Move =
    | Call(e: Event)
    | ReadViews(clock: seq<real>, staleAfter: real, ready: bool)
    | Present(k: nat)
    | Unplug
    | PressKey(key: int, down: bool)
    | TakePress

  function Start(): World {
    World([], [], seq(SLOTS, _ => None), [])
  }

  /** Registry calls, the drawing of single keys, presses and their handling in any order: the device loop may
      be anywhere in a pass while the registry moves on. */
  function Next(w: World, m: Move): World {
    match m
    case Call(e) => w.(events := w.events + [e])
    case ReadViews(clock, staleAfter, ready) =>
      if |clock| != SLOTS then w
      else
        var views := seq(SLOTS, k requires 0 <= k < SLOTS => ViewOf(At(w.events), k, clock[k], staleAfter));
        w.(views := WithReady(views, ready))
    case Present(k) =>
      if k < |w.views| && k < |w.presented| then w.(presented := w.presented[k := Some(w.views[k])]) else w
    case Unplug => w.(views := [], presented := seq(SLOTS, _ => None))
    case PressKey(key, down) =>
      if down && 0 <= key < SLOTS && key < |w.presented| && w.presented[key].Some? && |w.queue| < QUEUE_SIZE
      then w.(queue := w.queue + [w.presented[key].value]) else w
    case TakePress => if |w.queue| > 0 then w.(queue := w.queue[1..]) else w
  }

  function After(moves: seq<Move>): World {
    if |moves| == 0 then Start() else Next(After(moves[..|moves| - 1]), moves[|moves| - 1])
  }

  /** Keys going down join the end of the queue, with the view on the key, as long as fewer than 64 wait; they are
      handled from its front.  Nothing else changes. */
  lemma {:induction false} QueuedInOrder(w: World, key: int, down: bool)
    requires |w.presented| == SLOTS
    ensures var pressed, taken := Next(w, PressKey(key, down)), Next(w, TakePress);
      && pressed == w.(queue := pressed.queue) && taken == w.(queue := taken.queue)
      && (down && 0 <= key < 6 && w.presented[key].Some? && |w.queue| < 64 ==>
            pressed.queue == w.queue + [w.presented[key].value])
      && (!(down && 0 <= key < 6 && w.presented[key].Some? && |w.queue| < 64) ==> pressed.queue == w.queue)
      && w.queue == w.queue[..|w.queue| - |taken.queue|] + taken.queue
      && |taken.queue| == if w.queue == [] then 0 else |w.queue| - 1
  {
  }

  /** From anywhere on the path a read, the drawing of a key and a press of it put what its slot holds now at the end of
      a queue that is not full; the registry's history is that of its calls. */
  lemma {:induction false} PressSendsWhatIsThere(w: World, k: nat, clock: seq<real>, staleAfter: real, ready: bool,
                                                 e: Event)
    requires |w.presented| == SLOTS && |clock| == SLOTS && k < SLOTS && |w.queue| < 64
    ensures var pressed := Next(Next(Next(w, ReadViews(clock, staleAfter, ready)), Present(k)), PressKey(k, true));
      && pressed.events == w.events && |pressed.queue| == |w.queue| + 1 && pressed.queue[..|w.queue|] == w.queue
      && var v := pressed.queue[|w.queue|];
      v.slot == k && v.id == At(w.events).slots[k] && v.generation == At(w.events).generations[k]
    ensures Next(w, Call(e)) == w.(events := w.events + [e])
  {
    var read := Next(w, ReadViews(clock, staleAfter, ready));
    assert |read.views| == SLOTS;
    assert read.views[k].(state := Off) == ViewOf(At(w.events), k, clock[k], staleAfter).(state := Off);
    hide At;
  }

  /** When the device is given up no key has a view, and none gets one before the next read. */
  lemma {:induction false} UnplugClearsKeys(w: World, k: nat)
    ensures var off := Next(w, Unplug);
      && off == w.(views := off.views, presented := off.presented) && |off.presented| == SLOTS
      && (forall j :: 0 <= j < SLOTS ==> off.presented[j].None?) && Next(off, Present(k)) == off
  {
  }

  /** The view is of its slot as it was after the first `i` events. */
  ghost predicate Captured(events: seq<Event>, i: nat, v: View) {
    && i <= |events| && v.slot < SLOTS
    && At(events[..i]).slots[v.slot] == v.id && At(events[..i]).generations[v.slot] == v.generation
  }

  ghost predicate Genuine(events: seq<Event>, v: View) {
    exists i: nat :: Captured(events, i, v)
  }

  ghost predicate AllGenuine(w: World) {
    && (forall k :: 0 <= k < |w.views| ==> Genuine(w.events, w.views[k]))
    && (forall k :: 0 <= k < |w.presented| && w.presented[k].Some? ==> Genuine(w.events, w.presented[k].value))
    && (forall k :: 0 <= k < |w.queue| ==> Genuine(w.events, w.queue[k]))
  }

  lemma {:induction false} GenuineStays(events: seq<Event>, e: Event, v: View)
    requires Genuine(events, v)
    ensures Genuine(events + [e], v)
  {
    var i: nat :| Captured(events, i, v);
    assert (events + [e])[..i] == events[..i];
    assert Captured(events + [e], i, v);
  }

  lemma {:induction false} NextKeepsGenuine(w: World, m: Move)
    requires AllGenuine(w)
    ensures AllGenuine(Next(w, m))
  {
    hide Captured, At;
    match m
    case Call(e) =>
      forall v | Genuine(w.events, v) ensures Genuine(w.events + [e], v) {
        GenuineStays(w.events, e, v);
      }
    case ReadViews(clock, staleAfter, ready) =>
      if |clock| == SLOTS {
        forall k | 0 <= k < SLOTS ensures Genuine(w.events, Next(w, m).views[k]) {
          FreshViewIsGenuine(w.events, Next(w, m).views[k], ViewOf(At(w.events), k, clock[k], staleAfter), k);
        }
      }
    case _ =>
  }

  lemma {:induction false} FreshViewIsGenuine(events: seq<Event>, v: View, read: View, k: nat)
    requires k < SLOTS && v.(state := Off) == read.(state := Off)
    requires read.slot == k && read.id == At(events).slots[k] && read.generation == At(events).generations[k]
    ensures Genuine(events, v)
  {
    assert events[..|events|] == events;
    assert Captured(events, |events|, v);
  }

  lemma {:induction false} AfterIsGenuine(moves: seq<Move>)
    ensures AllGenuine(After(moves))
    decreases |moves|
  {
    if |moves| > 0 {
      AfterIsGenuine(moves[..|moves| - 1]);
      NextKeepsGenuine(After(moves[..|moves| - 1]), moves[|moves| - 1]);
    }
  }

  /** Whatever happens between drawing a key and handling its press, a focus goes to the registration that held
      the key's slot when the view was read, and that registration has held the slot ever since. */
  lemma {:induction false} FocusGoesWhereTheKeyPointed(moves: seq<Move>, lastPress: map<Id, real>, verdict: Verdict,
                                                       now: real)
    requires |After(moves).queue| > 0
    requires var w := After(moves);
      var v := w.queue[0];
      Handle(At(w.events), lastPress, Some(v.slot), Some(v.generation), v.id, verdict, now).0.Focus?
    ensures var w := After(moves);
      var v := w.queue[0];
      var r := Handle(At(w.events), lastPress, Some(v.slot), Some(v.generation), v.id, verdict, now).0.record;
      exists i: nat :: Captured(w.events, i, v) && v.id.Some?
        && Has(At(w.events[..i]), v.id.value) && SameRegistration(Get(At(w.events[..i]), v.id.value), r)
        && forall m :: i <= m <= |w.events| ==> HeldSince(w.events, i, m, v)
  {
    var w := After(moves);
    var v := w.queue[0];
    AfterIsGenuine(moves);
    assert Genuine(w.events, v);
    var i: nat :| Captured(w.events, i, v);
    var r := Resolve(At(w.events), Some(v.slot), Some(v.generation), v.id, verdict);
    StalePressNeverResolves(w.events, i, v, r.value, verdict);
  }

  /** What a press comes to, whatever it carries: a focus exactly when it resolves, its process alive, and the instance
      was not let through in the last fifth of a second, or never since the clock began; a press that does not focus
      leaves no trace. */
  lemma {:induction false} FocusesExactly(s: State, lastPress: map<Id, real>, slot: Option<int>,
                                          generation: Option<int>, id: Option<Id>, verdict: Verdict, now: real)
    requires |s.slots| == |s.generations| == SLOTS
    ensures var r, (outcome, after) :=
        Resolve(s, slot, generation, id, verdict), Handle(s, lastPress, slot, generation, id, verdict, now);
      && (outcome.EmptyOrStale? <==> r.None?)
      && (outcome.Focus? <==>
            r.Some? && if id.value in lastPress then now - lastPress[id.value] >= 0.2 else now >= -99.8)
      && (outcome.Focus? ==> verdict == Alive && outcome.record == r.value && after == lastPress[id.value := now])
      && (!outcome.Focus? ==> after == lastPress)
  {
    ResolvesExactly(s, slot, generation, id, verdict);
  }

  /** A press from a view that was taken of a held slot is honoured exactly when the slot still has its generation and
      the process is found alive; one from a view of an empty slot never is. */
  lemma {:induction false} HonouredExactlyWhileGenerationLasts(events: seq<Event>, i: nat, v: View, verdict: Verdict)
    requires Captured(events, i, v)
    ensures Resolve(At(events), Some(v.slot), Some(v.generation), v.id, verdict).Some?
       <==> v.id.Some? && At(events).generations[v.slot] == v.generation && verdict == Alive
  {
    ResolvesExactly(At(events), Some(v.slot), Some(v.generation), v.id, verdict);
    if v.id.Some? {
      RunFences(events, i, v.slot);
    }
  }

  /** After a pass that draws the current views, pressing the key of a held slot is honoured if and only if the process
      is found alive, and the key was redrawn or the view it kept has the slot's current generation already. */
  lemma {:induction false} DrawnKeyIsHonouredExactly(events: seq<Event>, i: nat, kept: Option<View>, same: bool, k: nat,
                                                    now: real, staleAfter: real, verdict: Verdict)
    requires k < SLOTS && At(events).slots[k].Some?
    requires same ==> kept.Some? && Captured(events, i, kept.value) && kept.value.slot == k
    ensures var v := ViewOf(At(events), k, now, staleAfter);
      var drawn := AfterDraw(kept, same, v);
      drawn.Some?
      && (Resolve(At(events), Some(drawn.value.slot), Some(drawn.value.generation), drawn.value.id, verdict).Some?
          <==> verdict == Alive && (!same || kept.value.generation == v.generation))
  {
    RunKeepsInv(events);
    HolderIsThere(At(events), k);
    if same {
      RunFences(events, i, k);
    }
  }

  /** A key is redrawn exactly when its state or title differs, or the frame of a key that is not off. */
  lemma {:induction false} LooksDiffer(v: View, u: View, phase: int, next: int)
    ensures LookOf(v, phase) != LookOf(u, next) <==>
      v.state != u.state || v.title != u.title || (v.state != Off && phase != next)
  {
  }

  /** A key that is not redrawn because its look has not changed keeps the view of the instance that was there
      before.  When another instance of the same title took the slot between two passes, the key shows the new
      one, alive, and yet pressing it is refused. */
  lemma {:induction false} UnchangedLookRefusesLivePress(p: Process, now: real, staleAfter: real, phase: int)
    ensures exists events, i: nat :: LooksAliveButRefused(events, i, now, staleAfter, phase)
  {
    var a, b := Registration("a", Some(p), "OpenCode", ""), Registration("b", Some(p), "OpenCode", "");
    var one := [Register(a, Alive, now)];
    var two := one + [Delete("a")];
    var all := two + [Register(b, Alive, now)];
    AtAppend([], one[0]);
    AtAppend(one, two[1]);
    AtAppend(two, all[2]);
    assert [] + one == one && all[..1] == one;
    var s1 := FirstRegisters(Init(), a, p, now);
    var s2 := OnlyOneLeaves(s1, a, p, now);
    var s3 := FirstRegisters(s2, b, p, now);
    assert At(one) == s1 && At(two) == s2 && At(all) == s3;
    hide At, Step, Find;
    OnlyHolderShows(s1, a, p, now, now, staleAfter);
    OnlyHolderShows(s3, b, p, now, now, staleAfter);
    assert LooksAliveButRefused(all, 1, now, staleAfter, phase);
  }

  lemma {:induction false} AtAppend(events: seq<Event>, e: Event)
    ensures At([]) == Init() && At(events + [e]) == Step(At(events), e)
  {
    assert (events + [e])[..|events|] == events;
  }

  lemma {:induction false} FirstRegisters(s: State, r: Registration, p: Process, now: real) returns (t: State)
    requires |s.slots| == |s.generations| == SLOTS && s.records == [] && s.slots[0].None?
    requires 1 <= |r.id| <= 128 && r.process == Some(p)
    ensures t == Step(s, Register(r, Alive, now))
    ensures t.records == [NewRecord(r, p, Some(0), now)]
    ensures t.slots == s.slots[0 := Some(r.id)] && t.generations == s.generations[0 := s.generations[0] + 1]
  {
    FirstIsFree(s.slots);
    t := Step(s, Register(r, Alive, now));
  }

  lemma {:induction false} OnlyOneLeaves(s: State, r: Registration, p: Process, now: real) returns (t: State)
    requires |s.slots| == |s.generations| == SLOTS && s.records == [NewRecord(r, p, Some(0), now)]
    ensures t == Step(s, Delete(r.id)) && t.records == []
    ensures t.slots == s.slots[0 := None] && t.generations == s.generations[0 := s.generations[0] + 1]
  {
    FindAt(s.records, 0);
    t := Step(s, Delete(r.id));
  }

  /** A registry with one blank record, in the first slot. */
  lemma {:induction false} OnlyHolderShows(s: State, r: Registration, p: Process, born: real, now: real,
                                           staleAfter: real)
    requires |s.slots| == |s.generations| == SLOTS && |r.title| <= 100
    requires s.records == [NewRecord(r, p, Some(0), born)] && s.slots[0] == Some(r.id)
    ensures Has(s, r.id) && Get(s, r.id) == s.records[0]
    ensures ViewOf(s, 0, now, staleAfter)
         == View(0, s.generations[0], Some(r.id), ShowUnknown, r.title, "Connecting")
  {
    FindAt(s.records, 0);
  }

  lemma {:induction false} FirstIsFree(slots: seq<Option<Id>>)
    requires |slots| > 0 && slots[0].None?
    ensures FirstFree(slots) == Some(0)
  {
    var at := FirstFree(slots);
    assert at.Some?;
  }

  ghost predicate LooksAliveButRefused(events: seq<Event>, i: nat, now: real, staleAfter: real, phase: int) {
    && i <= |events|
    && var drawn, shown := ViewOf(At(events[..i]), 0, now, staleAfter), ViewOf(At(events), 0, now, staleAfter);
    && shown.state != Off
    && LookOf(drawn, phase) == LookOf(shown, phase)
    && Resolve(At(events), Some(0), Some(drawn.generation), drawn.id, Alive).None?
    && Resolve(At(events), Some(0), Some(shown.generation), shown.id, Alive).Some?
  }
}
