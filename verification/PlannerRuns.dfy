/** The benchmark run of `llmbench/src/llmbench/cli/main.py`: the loop that drives the planner, and when it ends. */
module PlannerRuns {
  import opened PlannerModel
  import opened Planner
  import opened PlannerKnees

  /** What running a cell at a step gives: its metrics, or nothing when it fails. */
  type Executor = (nat, Cell) -> Option<Metrics>

  ghost predicate SucceedsFrom(run: Executor, step: nat, c: Cell) {
    exists later: nat :: later >= step && run(later, c).Some?
  }

  /** No cell fails for ever. */
  ghost predicate Recovers(run: Executor) {
    forall step: nat, c :: SucceedsFrom(run, step, c)
  }

  /** Every throughput is a whole multiple of the unit. */
  ghost predicate Measures(run: Executor, unit: real) {
    unit > 0.0 && forall step, c :: run(step, c).Some? ==> OnGrid(run(step, c).value.outputTps, unit)
  }

  // ---------------------------------------------------------------- how far the knee has come

  /** The highest knee there has been, and the results it was found in; nothing before the first. */
  datatype Trail = Trail(mark: Option<seq<Measurement>>, best: nat)

  ghost predicate Recorded(trail: Trail, completed: seq<Measurement>) {
    match trail.mark
    case None => trail.best == 0
    case Some(results) => results <= completed && IsKnee(PairsOf(results), Some(trail.best))
  }

  /** The trail when a refinement has found `knee`. */
  function Moved(trail: Trail, limits: Limits, completed: seq<Measurement>, knee: Option<int>): Trail {
    if CapOf(limits).None? && knee.Some? && knee.value > trail.best then Trail(Some(completed), knee.value) else trail
  }

  /** No refinement so far has proposed a level above this: the cap, or else about twice the highest knee. */
  function Reach(limits: Limits, trail: Trail): nat {
    if CapOf(limits).Some? then CapOf(limits).value else 2 * trail.best + 1
  }

  ghost predicate IsMost(completed: seq<Measurement>, g: real, unit: real) {
    |PairsOf(completed)| >= 2 && IsMaxGain(PairsOf(completed), g) && OnGrid(g, unit)
  }

  ghost function MostOf(completed: seq<Measurement>, unit: real): (g: real)
    requires exists g :: IsMost(completed, g, unit)
    ensures IsMost(completed, g, unit)
  {
    var g :| IsMost(completed, g, unit);
    g
  }

  /** The largest gain at the highest knee, in units. */
  ghost function Rank(trail: Trail, unit: real): nat {
    if trail.mark.Some? && exists g :: IsMost(trail.mark.value, g, unit) then
      var most := Units(MostOf(trail.mark.value, unit), unit);
      if most > 0 then most else 0
    else 0
  }

  lemma {:induction false} RankIsUnits(trail: Trail, unit: real, g: real)
    requires trail.mark.Some? && IsMost(trail.mark.value, g, unit)
    ensures Rank(trail, unit) == if Units(g, unit) > 0 then Units(g, unit) else 0
  {
    var most := MostOf(trail.mark.value, unit);
    MaxGainIsOne(PairsOf(trail.mark.value), most, g);
  }

  /** Each higher knee has fewer units to its largest gain than the one before it had. */
  lemma {:induction false} HigherKneeLowersRank(trail: Trail, completed: seq<Measurement>, knee: nat, unit: real)
    requires trail.mark.Some? && Recorded(trail, completed) && knee > trail.best
    requires IsKnee(PairsOf(completed), Some(knee)) && AllOnGrid(completed, unit) && unit > 0.0
    ensures Rank(Trail(Some(completed), knee), unit) < Rank(trail, unit)
  {
    var earlier := trail.mark.value;
    var g := KneeHasMost(earlier, trail.best, unit);
    var h := KneeHasMost(completed, knee, unit);
    HigherKneeLowersMost(earlier, completed, trail.best, knee, g, h);
    FewerUnits(h, g, unit);
    hide IsKnee, IsMaxGain;
    RankIsUnits(trail, unit, g);
    RankIsUnits(Trail(Some(completed), knee), unit, h);
  }

  lemma {:induction false} KneeHasMost(completed: seq<Measurement>, knee: int, unit: real) returns (g: real)
    requires IsKnee(PairsOf(completed), Some(knee)) && AllOnGrid(completed, unit)
    ensures |PairsOf(completed)| >= 3 && IsMost(completed, g, unit)
  {
    g :| IsMaxGain(PairsOf(completed), g);
    MostOnGrid(completed, g, unit);
  }

  // ---------------------------------------------------------------- what a run can reach

  lemma {:induction false} RefineStaysIn(s: State, limits: Limits, knee: Option<int>, universe: set<Key>, reach: nat)
    requires Closed(universe, limits, reach) && (knee.Some? ==> Reached(limits, Candidates(knee.value), reach))
    requires CellsIn(s.plan, universe) && DoneKeys(s.completed) <= universe
    ensures CellsIn(Extended(s, Proposals(limits, s.completed, knee)), universe)
  {
    ExtraCellsIn(s.completed, universe, limits, reach);
    if knee.Some? {
      KneeCellsIn(limits, s.completed, Candidates(knee.value), universe, reach);
    }
    ExtendedIn(s, Proposals(limits, s.completed, knee), universe);
  }

  lemma {:induction false} CandidatesAreReached(limits: Limits, trail: Trail, knee: int)
    requires CapOf(limits).None? ==> knee <= trail.best
    ensures Reached(limits, Candidates(knee), Reach(limits, trail))
  {
  }

  lemma {:induction false} HigherReach(limits: Limits, reach: nat, higher: nat, plan: seq<Cell>)
    requires reach <= higher
    ensures Universe(limits, reach, plan) <= Universe(limits, higher, plan)
  {
  }

  lemma {:induction false} NotDoneIsNew(completed: seq<Measurement>, key: Key)
    ensures Done(completed, key) <==> key in DoneKeys(completed)
  {
  }

  lemma {:induction false} PlanStartsIn(plan: seq<Cell>, universe: set<Key>)
    requires PlanKeys(plan) <= universe
    ensures CellsIn(plan, universe)
  {
    forall i | 0 <= i < |plan| ensures KeyOf(plan[i]) in universe {
      assert KeyOf(plan[i]) in PlanKeys(plan);
    }
  }

  /** A run that began with `plan`: no coordinate has been measured twice, and everything planned or measured is in
      the universe that the knees so far have opened. */
  ghost predicate Underway(s: State, plan: seq<Cell>, limits: Limits, trail: Trail) {
    && plan <= s.plan
    && DistinctKeys(s.completed) && Recorded(trail, s.completed) && (CapOf(limits).Some? ==> trail == Trail(None, 0))
    && var universe := Universe(limits, Reach(limits, trail), plan);
       CellsIn(s.plan, universe) && DoneKeys(s.completed) <= universe
  }

  /** How many coordinates are still to measure, at most, while the knee gets no higher. */
  ghost function Left(s: State, plan: seq<Cell>, limits: Limits, trail: Trail): nat {
    |Universe(limits, Reach(limits, trail), plan) - DoneKeys(s.completed)|
  }

  lemma {:induction false} RunStarts(plan: seq<Cell>, limits: Limits)
    ensures Underway(State(plan, []), plan, limits, Trail(None, 0))
  {
    var reach := Reach(limits, Trail(None, 0));
    UniverseClosed(limits, reach, plan);
    PlanStartsIn(plan, Universe(limits, reach, plan));
  }

  lemma {:induction false} RunIsBounded(s: State, plan: seq<Cell>, limits: Limits, trail: Trail)
    requires Underway(s, plan, limits, trail) && CapOf(limits).Some?
    ensures |s.completed| <= 2 * |plan| + CapOf(limits).value
  {
    UniverseBound(limits, CapOf(limits).value, plan);
    ResultsBound(s.completed, Universe(limits, CapOf(limits).value, plan));
  }

  /** The run has come nearer to its end: the knee is where it was and less is left, or it is the first there is, or it
      is higher and the largest gain has fewer units. */
  ghost predicate Nearer(before: State, trail: Trail, after: State, trail': Trail, plan: seq<Cell>, limits: Limits,
                         unit: real) {
    || (trail' == trail && Left(after, plan, limits, trail) < Left(before, plan, limits, trail))
    || (trail.mark.None? && trail'.mark.Some?)
    || (trail.mark.Some? && trail'.mark.Some? && Rank(trail', unit) < Rank(trail, unit))
  }

  /** With a new result stored and its refinement planned, the run is still underway. */
  lemma {:induction false} ResultStaysIn(before: State, s: State, m: Measurement, plan: seq<Cell>, limits: Limits,
                                         trail: Trail, knee: Option<int>)
    requires Underway(before, plan, limits, trail) && s.plan == before.plan && s.completed == before.completed + [m]
    requires NextOf(before.plan, before.completed) == Some(m.workload) && IsKnee(PairsOf(s.completed), knee)
    ensures var after := State(Extended(s, Proposals(limits, s.completed, knee)), s.completed);
      Underway(after, plan, limits, Moved(trail, limits, s.completed, knee))
  {
    var trail' := Moved(trail, limits, s.completed, knee);
    var reach, reach' := Reach(limits, trail), Reach(limits, trail');
    OneMoreKey(before.completed, m);
    NotDoneIsNew(before.completed, KeyOf(m.workload));
    DistinctGrows(before.completed, m);
    HigherReach(limits, reach, reach', plan);
    UniverseClosed(limits, reach', plan);
    if knee.Some? {
      CandidatesAreReached(limits, trail', knee.value);
    }
    hide Universe, IsKnee, Closed, Reached, PairsOf, DistinctKeys, DoneKeys, KeyOf, Done, Proposals;
    RefineStaysIn(s, limits, knee, Universe(limits, reach', plan), reach');
  }

  /** And it is nearer to its end. */
  lemma {:induction false} ResultIsNearer(before: State, s: State, m: Measurement, plan: seq<Cell>, limits: Limits,
                                          trail: Trail, knee: Option<int>, unit: real)
    requires Underway(before, plan, limits, trail) && s.completed == before.completed + [m]
    requires NextOf(before.plan, before.completed) == Some(m.workload) && IsKnee(PairsOf(s.completed), knee)
    requires CapOf(limits).Some? || (unit > 0.0 && AllOnGrid(s.completed, unit))
    ensures Nearer(before, trail, s, Moved(trail, limits, s.completed, knee), plan, limits, unit)
  {
    var trail' := Moved(trail, limits, s.completed, knee);
    if trail' == trail {
      OneMoreKey(before.completed, m);
      NotDoneIsNew(before.completed, KeyOf(m.workload));
      SetShrinks(Universe(limits, Reach(limits, trail), plan), DoneKeys(before.completed), KeyOf(m.workload));
      hide Universe, IsKnee, PairsOf, DistinctKeys, DoneKeys, KeyOf, Done;
    } else if trail.mark.Some? {
      HigherKneeLowersRank(trail, s.completed, knee.value, unit);
    }
  }

  lemma {:induction false} DistinctGrows(results: seq<Measurement>, m: Measurement)
    requires DistinctKeys(results) && !Done(results, KeyOf(m.workload))
    ensures DistinctKeys(results + [m])
  {
  }

  ghost predicate DistinctKeys(results: seq<Measurement>) {
    forall i, j :: 0 <= i < j < |results| ==> KeyOf(results[i].workload) != KeyOf(results[j].workload)
  }

  lemma {:induction false} ResultsBound(results: seq<Measurement>, universe: set<Key>)
    requires DistinctKeys(results) && DoneKeys(results) <= universe
    ensures |results| <= |universe|
  {
    DistinctCount(results);
    SubsetBound(DoneKeys(results), universe);
  }

  lemma {:induction false} DistinctCount(results: seq<Measurement>)
    requires DistinctKeys(results)
    ensures |DoneKeys(results)| == |results|
    decreases |results|
  {
    if |results| > 0 {
      var front, last := results[..|results| - 1], results[|results| - 1];
      DistinctCount(front);
      OneMoreKey(front, last);
      assert results == front + [last];
      assert KeyOf(last.workload) !in DoneKeys(front);
    }
  }

  lemma {:induction false} SetShrinks(universe: set<Key>, done: set<Key>, key: Key)
    requires key in universe && key !in done
    ensures |universe - (done + {key})| < |universe - done|
  {
    assert universe - done == (universe - (done + {key})) + {key};
  }

  // ---------------------------------------------------------------- the run

  predicate PlanThrough(s: State) {
    forall i :: 0 <= i < |s.plan| ==> Done(s.completed, KeyOf(s.plan[i]))
  }

  /** Nothing but the run itself need end it: no cell fails for ever, and there is a concurrency cap, or all throughputs
      are multiples of one unit. */
  ghost predicate EndsByItself(run: Executor, limits: Limits, unit: real) {
    Recovers(run) && (CapOf(limits).Some? || Measures(run, unit))
  }

  /** The benchmark run.  `exhausted(step)` says whether the time budget is used up when a step begins.  Whatever is
      measured, the run ends if the budget runs out at some step `limit`; and if no cell fails for ever, it ends without
      a budget, under a concurrency cap, and also without one, when all throughputs are multiples of some `unit`.  No
      coordinate is measured twice, and under a cap the number of results is at most two for each planned cell plus one
      for each level up to the cap.  A run that the budget does not cut short has measured everything it planned. */
  method RunBenchmark(planner: AdaptivePlanner, run: Executor, exhausted: nat -> bool, ghost limit: Option<nat>,
                      ghost unit: real)
    returns (results: seq<Measurement>, steps: nat, cutShort: bool)
    requires planner.completed == []
    requires if limit.Some? then exhausted(limit.value) else EndsByItself(run, planner.limits, unit)
    modifies planner
    ensures results == planner.completed && DistinctKeys(results)
    ensures CapOf(planner.limits).Some? ==> |results| <= 2 * |old(planner.plan)| + CapOf(planner.limits).value
    ensures !cutShort ==> forall i :: 0 <= i < |planner.plan| ==> Done(results, KeyOf(planner.plan[i]))
    ensures old(planner.plan) <= planner.plan
    ensures cutShort ==> exhausted(steps)
    ensures limit.Some? ==> steps <= limit.value
  {
    RunStarts(planner.plan, planner.limits);
    ghost var trail;
    steps, cutShort, trail := RunRounds(planner, run, exhausted, limit, unit, planner.plan);
    results := planner.completed;
    if CapOf(planner.limits).Some? {
      RunIsBounded(planner.Value(), old(planner.plan), planner.limits, trail);
    }
  }

  /** The step, no earlier than `step`, at which the next cell will succeed. */
  ghost predicate Awaited(run: Executor, step: nat, s: State, until: nat) {
    NextOf(s.plan, s.completed).Some? ==> step <= until && run(until, NextOf(s.plan, s.completed).value).Some?
  }

  lemma {:induction false} Await(run: Executor, step: nat, s: State) returns (until: nat)
    requires Recovers(run)
    ensures Awaited(run, step, s, until)
  {
    until := step;
    if NextOf(s.plan, s.completed).Some? {
      var c := NextOf(s.plan, s.completed).value;
      assert SucceedsFrom(run, step, c);
      until :| until >= step && run(until, c).Some?;
    }
  }

  method RunRounds(planner: AdaptivePlanner, run: Executor, exhausted: nat -> bool, ghost limit: Option<nat>,
                   ghost unit: real, ghost plan: seq<Cell>)
    returns (step: nat, cutShort: bool, ghost trail: Trail)
    requires Underway(planner.Value(), plan, planner.limits, Trail(None, 0)) && planner.completed == []
    requires if limit.Some? then exhausted(limit.value) else EndsByItself(run, planner.limits, unit)
    modifies planner
    ensures Underway(planner.Value(), plan, planner.limits, trail)
    ensures cutShort ==> exhausted(step)
    ensures !cutShort ==> PlanThrough(planner.Value())
    ensures limit.Some? ==> step <= limit.value
  {
    hide Underway, PlanThrough, Left, Rank, Awaited, Measures, Recovers, AllOnGrid;
    step, trail := 0, Trail(None, 0);
    NothingIsOnGrid(unit);
    ghost var until: nat := 0;
    if limit.None? {
      until := Await(run, step, planner.Value());
    }
    while true
      invariant Underway(planner.Value(), plan, planner.limits, trail)
      invariant Measures(run, unit) ==> AllOnGrid(planner.completed, unit)
      invariant if limit.Some? then step <= limit.value else Awaited(run, step, planner.Value(), until)
      decreases
        if limit.Some? then limit.value - step else if trail.mark.None? then 1 else 0,
        if limit.Some? then 0 else Rank(trail, unit),
        if limit.Some? then 0 else Left(planner.Value(), plan, planner.limits, trail),
        if limit.Some? then 0 else until - step
    {
      if exhausted(step) {
        return step, true, trail;
      }
      var round;
      ghost var trail';
      round, trail' := RunOne(planner, run, step, plan, trail, unit, until);
      if round.PlanDone? {
        return step, false, trail;
      }
      step, trail := step + 1, trail';
      if limit.None? && round.Ran? {
        until := Await(run, step, planner.Value());
      }
    }
  }

  lemma {:induction false} NothingIsOnGrid(unit: real)
    ensures AllOnGrid([], unit)
  {
  }

  datatype Round = PlanDone | CellFailed | Ran(m: Measurement)

  /** The plan has been refined by what the results there are now propose. */
  ghost predicate Refined(before: seq<Cell>, s: State, limits: Limits) {
    exists knee :: IsKnee(PairsOf(s.completed), knee)
      && s.plan == Extended(State(before, s.completed), Proposals(limits, s.completed, knee))
  }

  /** One round of the loop: nothing is left to run, or the next cell fails, or its result is taken in. */
  method RunOne(planner: AdaptivePlanner, run: Executor, step: nat, ghost plan: seq<Cell>, ghost trail: Trail,
                ghost unit: real, ghost until: nat)
    returns (round: Round, ghost trail': Trail)
    requires Underway(planner.Value(), plan, planner.limits, trail)
    requires Measures(run, unit) ==> AllOnGrid(planner.completed, unit)
    modifies planner
    ensures Underway(planner.Value(), plan, planner.limits, trail')
    ensures Measures(run, unit) ==> AllOnGrid(planner.completed, unit)
    ensures round.PlanDone? ==> PlanThrough(planner.Value())
    ensures round.Ran? ==> planner.completed == old(planner.completed) + [round.m]
    ensures round.Ran? ==> NextOf(old(planner.plan), old(planner.completed)) == Some(round.m.workload)
    ensures round.Ran? ==> run(step, round.m.workload) == Some(round.m.metrics)
    ensures round.Ran? ==> Refined(old(planner.plan), planner.Value(), planner.limits)
    ensures round.Ran? && (CapOf(planner.limits).Some? || Measures(run, unit)) ==>
      Nearer(old(planner.Value()), trail, planner.Value(), trail', plan, planner.limits, unit)
    ensures !round.Ran? ==> planner.Value() == old(planner.Value()) && trail' == trail
    ensures round.CellFailed? && Awaited(run, step, planner.Value(), until) ==>
      until > step && Awaited(run, step + 1, planner.Value(), until)
  {
    trail' := trail;
    var cell := planner.NextCell();
    if cell.None? {
      return PlanDone, trail;
    }
    var metrics := run(step, cell.value);
    if metrics.None? {
      return CellFailed, trail;
    }
    var m := Measurement(cell.value, metrics.value);
    trail' := TakeResult(planner, m, plan, trail, unit);
    return Ran(m), trail';
  }

  /** A result comes in: it is stored, and the plan refined. */
  method TakeResult(planner: AdaptivePlanner, m: Measurement, ghost plan: seq<Cell>, ghost trail: Trail,
                    ghost unit: real)
    returns (ghost trail': Trail)
    requires Underway(planner.Value(), plan, planner.limits, trail)
    requires NextOf(planner.plan, planner.completed) == Some(m.workload)
    modifies planner
    ensures planner.completed == old(planner.completed) + [m]
    ensures Refined(old(planner.plan), planner.Value(), planner.limits)
    ensures Underway(planner.Value(), plan, planner.limits, trail')
    ensures CapOf(planner.limits).Some? || (unit > 0.0 && AllOnGrid(planner.completed, unit)) ==>
      Nearer(old(planner.Value()), trail, planner.Value(), trail', plan, planner.limits, unit)
  {
    ghost var before := planner.Value();
    planner.MarkDone(m);
    ghost var s := planner.Value();
    var insertions, knee := planner.Refine();
    trail' := Moved(trail, planner.limits, s.completed, knee);
    ResultStaysIn(before, s, m, plan, planner.limits, trail, knee);
    if CapOf(planner.limits).Some? || (unit > 0.0 && AllOnGrid(planner.completed, unit)) {
      ResultIsNearer(before, s, m, plan, planner.limits, trail, knee, unit);
    }
  }

  // ---------------------------------------------------------------- a cell that fails

  /** A failing cell is not marked, so it is next again: nothing else is run exactly as long as it fails. */
  lemma {:induction false} FailingCellStarvesTheRest(s: State, run: Executor, from: nat, n: nat)
    requires NextOf(s.plan, s.completed).Some?
    ensures var c := NextOf(s.plan, s.completed).value;
      StateAfter(s, run, from, n) == Some(s) <==> forall step :: from <= step < from + n ==> run(step, c).None?
    ensures StateAfter(s, run, from, n).None? || StateAfter(s, run, from, n) == Some(s)
    decreases n
  {
    if n > 0 {
      FailingCellStarvesTheRest(s, run, from, n - 1);
    }
  }

  /** The planner's state after `n` rounds of the loop in which no cell succeeds, or nothing once one does or
      the plan is through. */
  function StateAfter(s: State, run: Executor, from: nat, n: nat): Option<State> {
    if n == 0 then Some(s)
    else
      match StateAfter(s, run, from, n - 1)
      case None => None
      case Some(t) =>
        var next := NextOf(t.plan, t.completed);
        if next.None? || run(from + n - 1, next.value).Some? then None else Some(t)
  }

  /** Once it succeeds, another cell is next, if there is one. */
  lemma {:induction false} SuccessMovesOn(plan: seq<Cell>, completed: seq<Measurement>, m: Measurement)
    requires m in completed && NextOf(plan, completed).Some?
    ensures KeyOf(NextOf(plan, completed).value) != KeyOf(m.workload)
  {
    var i :| 0 <= i < |completed| && completed[i] == m;
    assert KeyOf(completed[i].workload) == KeyOf(m.workload);
  }
}
