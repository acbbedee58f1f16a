/** The debounce of `handle_press` in `opencode-deck/opencode-deck/ocdeck/broker.py` when several threads are in it:
    the main loop takes presses off the queue while the threads of the HTTP server handle `POST /v1/focus`, and no
    lock covers the read of the last press and its write. */
module DeckDebounce {
  import opened DeckModel
  import P = DeckPress

  /** A call of `handle_press` whose press has resolved to a record, after its look at the clock. */
  datatype Handler =
    | Asking(id: Id, now: real)      // before it reads the last press
    | Passed(id: Id, now: real)      // let through, before it writes the last press
    | Focused(id: Id, now: real)
    | Refused(id: Id, now: real)     // debounced

  datatype World = World(handlers: seq<Handler>, lastPress: map<Id, real>)

  datatype Step =
    | Ask(id: Id, now: real)
    | Read(h: nat)
    | Write(h: nat)

  function Last(lastPress: map<Id, real>, id: Id): real {
    if id in lastPress then lastPress[id] else P.NEVER
  }

  /** One operation of one thread.  A step that does not fit its handler changes nothing. */
  function Next(w: World, step: Step): World {
    match step
    case Ask(id, now) => w.(handlers := w.handlers + [Asking(id, now)])
    case Read(h) =>
      if h < |w.handlers| && w.handlers[h].Asking? then
        var c := w.handlers[h];
        var out := if c.now - Last(w.lastPress, c.id) < P.DEBOUNCE then Refused(c.id, c.now) else Passed(c.id, c.now);
        w.(handlers := w.handlers[h := out])
      else w
    case Write(h) =>
      if h < |w.handlers| && w.handlers[h].Passed? then
        var c := w.handlers[h];
        World(w.handlers[h := Focused(c.id, c.now)], w.lastPress[c.id := c.now])
      else w
  }

  function Run(w: World, steps: seq<Step>): World {
    if |steps| == 0 then w else Next(Run(w, steps[..|steps| - 1]), steps[|steps| - 1])
  }

  function Start(): World {
    World([], map[])
  }

  predicate LetThrough(c: Handler) {
    c.Passed? || c.Focused?
  }

  /** The window of a call is open between its read and its write. */
  predicate Open(w: World, id: Id) {
    exists h :: 0 <= h < |w.handlers| && w.handlers[h].Passed? && w.handlers[h].id == id
  }

  /** No call reads while the window of another on the same id is open. */
  ghost predicate Disjoint(steps: seq<Step>) {
    forall n :: 0 <= n < |steps| ==> !ReadsInside(Run(Start(), steps[..n]), steps[n])
  }

  predicate ReadsInside(w: World, step: Step) {
    step.Read? && step.h < |w.handlers| && w.handlers[step.h].Asking? && Open(w, w.handlers[step.h].id)
  }

  // ---------------------------------------------------------------- windows apart

  predicate Far(a: real, b: real) {
    a - b >= P.DEBOUNCE || b - a >= P.DEBOUNCE
  }

  predicate BothThrough(c: Handler, d: Handler) {
    c.id == d.id && LetThrough(c) && LetThrough(d)
  }

  /** At most one window an id is open; what was let through is far apart and before what is remembered, and an open
      window is well after that. */
  ghost predicate Orderly(w: World) {
    && (forall a, b :: 0 <= a < b < |w.handlers| && BothThrough(w.handlers[a], w.handlers[b]) ==>
          Far(w.handlers[a].now, w.handlers[b].now) && !(w.handlers[a].Passed? && w.handlers[b].Passed?))
    && (forall a :: 0 <= a < |w.handlers| && w.handlers[a].Focused? ==>
          w.handlers[a].id in w.lastPress && w.handlers[a].now <= w.lastPress[w.handlers[a].id])
    && (forall a :: 0 <= a < |w.handlers| && w.handlers[a].Passed? ==>
          w.handlers[a].now - Last(w.lastPress, w.handlers[a].id) >= P.DEBOUNCE)
  }

  lemma {:induction false} NextKeepsOrder(w: World, step: Step)
    requires Orderly(w) && !ReadsInside(w, step)
    ensures Orderly(Next(w, step))
  {
    if step.Read? && step.h < |w.handlers| && w.handlers[step.h].Asking? {
      var c := w.handlers[step.h];
      forall a | 0 <= a < |w.handlers| && LetThrough(w.handlers[a]) && w.handlers[a].id == c.id
        ensures w.handlers[a].Focused? && w.handlers[a].now <= Last(w.lastPress, c.id)
      {
        assert !w.handlers[a].Passed?;
      }
    }
  }

  lemma {:induction false} DisjointIsOrderly(steps: seq<Step>)
    requires Disjoint(steps)
    ensures Orderly(Run(Start(), steps))
    decreases |steps|
  {
    if |steps| > 0 {
      var before := steps[..|steps| - 1];
      forall n | 0 <= n < |before| ensures !ReadsInside(Run(Start(), before[..n]), before[n]) {
        assert before[..n] == steps[..n] && before[n] == steps[n];
      }
      DisjointIsOrderly(before);
      NextKeepsOrder(Run(Start(), before), steps[|steps| - 1]);
    }
  }

  /** However many threads handle presses, if no call reads the last press while another call on the same id stands
      between its read and its write, then any two focuses of one id are at least the debounce time apart.  The clock
      need not even be monotone. */
  lemma {:induction false} FocusesAreSpaced(steps: seq<Step>, a: nat, b: nat)
    requires Disjoint(steps)
    requires var w := Run(Start(), steps);
      a < |w.handlers| && b < |w.handlers| && a != b && BothThrough(w.handlers[a], w.handlers[b])
    ensures var w := Run(Start(), steps); Far(w.handlers[a].now, w.handlers[b].now)
  {
    DisjointIsOrderly(steps);
    var w := Run(Start(), steps);
    assert a < b ==> Far(w.handlers[a].now, w.handlers[b].now);
    assert b < a ==> Far(w.handlers[b].now, w.handlers[a].now);
  }

  /** The call `a` is the latest let through for its id: any other is at least the debounce time older. */
  ghost predicate Latest(w: World, a: nat) {
    && a < |w.handlers| && LetThrough(w.handlers[a])
    && forall b :: 0 <= b < |w.handlers| && b != a && BothThrough(w.handlers[a], w.handlers[b]) ==>
         w.handlers[a].now - w.handlers[b].now >= P.DEBOUNCE
  }

  /** The last press remembered is that of the calls that have written. */
  ghost predicate Remembers(w: World) {
    forall id :: id in w.lastPress ==>
      exists h :: 0 <= h < |w.handlers| && w.handlers[h] == Focused(id, w.lastPress[id])
  }

  lemma {:induction false} NextRemembers(w: World, step: Step)
    requires Remembers(w)
    ensures Remembers(Next(w, step))
  {
    var w' := Next(w, step);
    forall id | id in w'.lastPress
      ensures exists h :: 0 <= h < |w'.handlers| && w'.handlers[h] == Focused(id, w'.lastPress[id])
    {
      if step.Write? && w' != w && id == w.handlers[step.h].id {
        assert w'.handlers[step.h] == Focused(id, w'.lastPress[id]);
      } else {
        var h :| 0 <= h < |w.handlers| && w.handlers[h] == Focused(id, w.lastPress[id]);
        assert w'.handlers[h] == w.handlers[h];
      }
    }
  }

  lemma {:induction false} RunRemembers(steps: seq<Step>)
    ensures Remembers(Run(Start(), steps))
    decreases |steps|
  {
    if |steps| > 0 {
      RunRemembers(steps[..|steps| - 1]);
      NextRemembers(Run(Start(), steps[..|steps| - 1]), steps[|steps| - 1]);
    }
  }

  /** Exactly: in a run with its windows apart so far, a call that looked at the clock less than the debounce time
      after the latest call let through for its id is itself let through if and only if that call has not written yet
      and its own time is the debounce time past the last press remembered.  When it looked no earlier than that
      call, this is if and only if that call has not written yet, that is, if and only if their windows overlap. */
  lemma {:induction false} LetThroughExactlyWhileUnwritten(steps: seq<Step>, a: nat, b: nat)
    requires Disjoint(steps) && Latest(Run(Start(), steps), a)
    requires var w := Run(Start(), steps);
      && b < |w.handlers| && w.handlers[b].Asking? && w.handlers[b].id == w.handlers[a].id
      && w.handlers[b].now - w.handlers[a].now < P.DEBOUNCE
    ensures var w := Run(Start(), steps);
      LetThrough(Next(w, Read(b)).handlers[b]) <==>
        w.handlers[a].Passed? && w.handlers[b].now - Last(w.lastPress, w.handlers[a].id) >= P.DEBOUNCE
    ensures var w := Run(Start(), steps);
      w.handlers[b].now >= w.handlers[a].now ==>
        (LetThrough(Next(w, Read(b)).handlers[b]) <==> w.handlers[a].Passed?)
  {
    var w := Run(Start(), steps);
    DisjointIsOrderly(steps);
    RunRemembers(steps);
    var id := w.handlers[a].id;
    if w.handlers[a].Passed? && id in w.lastPress {
      var h :| 0 <= h < |w.handlers| && w.handlers[h] == Focused(id, w.lastPress[id]);
      assert w.handlers[a].now - w.handlers[h].now >= P.DEBOUNCE;
    }
  }

  // ---------------------------------------------------------------- among any other calls

  /** No window but that of call `a` is open on its id. */
  ghost predicate AloneOpen(w: World, a: nat) {
    && a < |w.handlers| && w.handlers[a].Passed?
    && forall b :: 0 <= b < |w.handlers| && w.handlers[b].Passed? && w.handlers[b].id == w.handlers[a].id ==> b == a
  }

  /** What has been let through for the id since `before`, and what is remembered, is no older than `t`; the former is
      the debounce time later. */
  ghost predicate AfterFocus(before: World, w: World, id: Id, t: real) {
    && |before.handlers| <= |w.handlers|
    && Last(w.lastPress, id) >= t && id in w.lastPress
    && (forall b :: 0 <= b < |w.handlers| && LetThrough(w.handlers[b]) && w.handlers[b].id == id ==>
          w.handlers[b].now - t >= P.DEBOUNCE
          || (w.handlers[b].Focused? && b < |before.handlers| && LetThrough(before.handlers[b])))
  }

  lemma {:induction false} NextStaysAfter(before: World, w: World, step: Step, id: Id, t: real)
    requires AfterFocus(before, w, id, t)
    ensures AfterFocus(before, Next(w, step), id, t)
  {
  }

  /** Two calls need not be alone: when a call writes its focus while no other window on its id is open, then every
      call let through for that id later is at least the debounce time after it, whatever windows overlap then. */
  lemma {:induction false} LaterFocusIsSpaced(steps: seq<Step>, n: nat, a: nat, b: nat)
    requires n < |steps| && steps[n] == Write(a) && AloneOpen(Run(Start(), steps[..n]), a)
    requires var before, w := Run(Start(), steps[..n]), Run(Start(), steps);
      && b < |w.handlers| && LetThrough(w.handlers[b]) && w.handlers[b].id == before.handlers[a].id
      && (b < |before.handlers| ==> !LetThrough(before.handlers[b]))
    ensures var before, w := Run(Start(), steps[..n]), Run(Start(), steps);
      w.handlers[b].now - before.handlers[a].now >= P.DEBOUNCE
  {
    var before := Run(Start(), steps[..n]);
    StaysAfter(steps, n, |steps|, a);
    assert steps[..|steps|] == steps;
  }

  lemma {:induction false} StaysAfter(steps: seq<Step>, n: nat, m: nat, a: nat)
    requires n < m <= |steps| && steps[n] == Write(a) && AloneOpen(Run(Start(), steps[..n]), a)
    ensures var before := Run(Start(), steps[..n]);
      AfterFocus(before, Run(Start(), steps[..m]), before.handlers[a].id, before.handlers[a].now)
    decreases m
  {
    var before := Run(Start(), steps[..n]);
    assert steps[..m][..m - 1] == steps[..m - 1];
    if m > n + 1 {
      StaysAfter(steps, n, m - 1, a);
      NextStaysAfter(before, Run(Start(), steps[..m - 1]), steps[m - 1], before.handlers[a].id, before.handlers[a].now);
    }
  }

  // ---------------------------------------------------------------- one call alone

  /** A call that nobody disturbs does what the sequential handling of a press says. */
  lemma {:induction false} HandledAlone(w: World, s: State, slot: Option<int>, generation: Option<int>, id: Option<Id>,
                                        verdict: Verdict, now: real)
    requires |s.slots| == |s.generations| == SLOTS && Resolve(s, slot, generation, id, verdict).Some?
    ensures var r, h := Resolve(s, slot, generation, id, verdict).value, |w.handlers|;
      var w' := Next(Next(Next(w, Ask(r.id, now)), Read(h)), Write(h));
      var (outcome, lastPress) := P.Handle(s, w.lastPress, slot, generation, id, verdict, now);
      && w'.lastPress == lastPress
      && w'.handlers == w.handlers + [if outcome.Focus? then Focused(r.id, now) else Refused(r.id, now)]
  {
    var r, h := Resolve(s, slot, generation, id, verdict).value, |w.handlers|;
    var w1 := Next(w, Ask(r.id, now));
    assert w1.handlers[h] == Asking(r.id, now);
    var w2 := Next(w1, Read(h));
    assert w2.handlers == w.handlers + [w2.handlers[h]];
  }

  // ---------------------------------------------------------------- windows that overlap

  lemma {:induction false} RunOneMore(w: World, steps: seq<Step>, step: Step)
    ensures Run(w, steps + [step]) == Next(Run(w, steps), step)
  {
    assert (steps + [step])[..|steps|] == steps;
  }

  /** Two calls on one id, each reading before the other writes. */
  function Overlapping(id: Id, t: real, u: real): seq<Step> {
    [Ask(id, t), Ask(id, u), Read(0), Read(1), Write(0), Write(1)]
  }

  /** They both focus, at whatever two times: nothing is debounced. */
  lemma {:induction false} OverlappingCallsBothFocus(id: Id, t: real, u: real)
    requires t - P.NEVER >= P.DEBOUNCE && u - P.NEVER >= P.DEBOUNCE
    ensures Run(Start(), Overlapping(id, t, u)).handlers == [Focused(id, t), Focused(id, u)]
    ensures !Disjoint(Overlapping(id, t, u))
  {
    var s := Overlapping(id, t, u);
    var w3 := TwoAskOneReads(id, t, u);
    var three := [Ask(id, t), Ask(id, u), Read(0)];
    assert s[..3] == three && s[3] == Read(1) && ReadsInside(w3, Read(1)) by {
      assert w3.handlers[0].Passed?;
    }
    RunOneMore(Start(), three, Read(1));
    RunOneMore(Start(), three + [Read(1)], Write(0));
    RunOneMore(Start(), three + [Read(1)] + [Write(0)], Write(1));
    assert three + [Read(1)] + [Write(0)] + [Write(1)] == s;
    hide Run;
    assert Next(w3, Read(1)).handlers == [Passed(id, t), Passed(id, u)];
  }

  lemma {:induction false} TwoAskOneReads(id: Id, t: real, u: real) returns (w: World)
    requires t - P.NEVER >= P.DEBOUNCE
    ensures w == Run(Start(), [Ask(id, t), Ask(id, u), Read(0)])
    ensures w == World([Passed(id, t), Asking(id, u)], map[])
  {
    w := World([Passed(id, t), Asking(id, u)], map[]);
    TwoAsk(id, t, u);
    OneReads(id, t, u);
    hide Run, Next;
    RunOneMore(Start(), [Ask(id, t), Ask(id, u)], Read(0));
    assert [Ask(id, t), Ask(id, u)] + [Read(0)] == [Ask(id, t), Ask(id, u), Read(0)];
  }

  lemma {:induction false} TwoAsk(id: Id, t: real, u: real)
    ensures Run(Start(), [Ask(id, t), Ask(id, u)]) == World([Asking(id, t), Asking(id, u)], map[])
  {
    RunTwo(Start(), Ask(id, t), Ask(id, u));
    hide Run;
    assert Next(Start(), Ask(id, t)) == World([Asking(id, t)], map[]);
  }

  lemma {:induction false} RunTwo(w: World, first: Step, second: Step)
    ensures Run(w, [first, second]) == Next(Next(w, first), second)
  {
    var both, one := [first, second], [first];
    assert both[..1] == one && one[..0] == [];
    hide Next;
    assert Run(w, one) == Next(w, first);
  }

  lemma {:induction false} OneReads(id: Id, t: real, u: real)
    requires t - P.NEVER >= P.DEBOUNCE
    ensures Next(World([Asking(id, t), Asking(id, u)], map[]), Read(0)) == World([Passed(id, t), Asking(id, u)], map[])
  {
    var w := World([Asking(id, t), Asking(id, u)], map[]);
    assert Last(w.lastPress, id) == P.NEVER;
    assert Next(w, Read(0)).handlers == [Passed(id, t), Asking(id, u)];
  }

  /** The first call reads, the second reads and writes, and the first writes its older time over the second's; then
      a third call comes. */
  function Rewound(id: Id, t: real, u: real, v: real): seq<Step> {
    [Ask(id, t), Ask(id, u), Read(0), Read(1), Write(1), Write(0), Ask(id, v), Read(2), Write(2)]
  }

  /** The windows of the second and the third call do not overlap, and yet both focus within the debounce time: it is
      not enough to keep two calls apart when a window of another is open at the write of the first. */
  lemma {:induction false} OlderTimeLetsThirdThrough(id: Id, t: real, u: real, v: real)
    requires t - P.NEVER >= P.DEBOUNCE && t <= u <= v < u + P.DEBOUNCE && v - t >= P.DEBOUNCE
    ensures Run(Start(), Rewound(id, t, u, v)).handlers == [Focused(id, t), Focused(id, u), Focused(id, v)]
  {
    var w3 := TwoAskOneReads(id, t, u);
    var three := [Ask(id, t), Ask(id, u), Read(0)];
    RunOneMore(Start(), three, Read(1));
    RunOneMore(Start(), three + [Read(1)], Write(1));
    RunOneMore(Start(), three + [Read(1)] + [Write(1)], Write(0));
    RunOneMore(Start(), three + [Read(1)] + [Write(1)] + [Write(0)], Ask(id, v));
    RunOneMore(Start(), three + [Read(1)] + [Write(1)] + [Write(0)] + [Ask(id, v)], Read(2));
    RunOneMore(Start(), three + [Read(1)] + [Write(1)] + [Write(0)] + [Ask(id, v)] + [Read(2)], Write(2));
    assert three + [Read(1)] + [Write(1)] + [Write(0)] + [Ask(id, v)] + [Read(2)] + [Write(2)] == Rewound(id, t, u, v);
    hide Run;
    var w6 := Next(Next(Next(w3, Read(1)), Write(1)), Write(0));
    assert w6.handlers == [Focused(id, t), Focused(id, u)] && w6.lastPress[id] == t;
    assert Next(w6, Ask(id, v)).handlers == [Focused(id, t), Focused(id, u), Asking(id, v)];
  }
}
