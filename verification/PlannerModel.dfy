/** The adaptive benchmark planner of `llmbench/src/llmbench/planner/plan.py`, as values: which cell comes next,
    and which cells a refinement adds. */
module PlannerModel {

  datatype Option<+T> = None | Some(value: T)

  datatype CacheMode = Cold | Warm

  datatype LoadMode = ClosedLoop | OpenLoopConstant | OpenLoopPoisson

  datatype Cell = Cell(
    inputTokens: int,
    targetTokens: int,
    concurrency: int,
    cache: CacheMode,
    load: LoadMode,
    repetitions: int,
    rate: Option<real>)

  /** The coordinate a result is stored under: the repetitions are not part of it, and no rate counts as zero. */
  datatype Key = Key(
    inputTokens: int, targetTokens: int, concurrency: int, cache: CacheMode, load: LoadMode, rate: real)

  function KeyOf(c: Cell): Key {
    Key(c.inputTokens, c.targetTokens, c.concurrency, c.cache, c.load, if c.rate.Some? then c.rate.value else 0.0)
  }

  datatype Metrics = Metrics(outputTps: real, ttftCv: Option<real>, itlCv: Option<real>)

  datatype Measurement = Measurement(workload: Cell, metrics: Metrics)

  datatype Limits = Limits(maxConcurrency: Option<int>, maxContext: Option<int>)

  /** `completed` is in the order the keys were first marked, as Python's dict keeps it. */
  datatype State = State(plan: seq<Cell>, completed: seq<Measurement>)

  predicate Done(completed: seq<Measurement>, key: Key) {
    exists i :: 0 <= i < |completed| && KeyOf(completed[i].workload) == key
  }

  function FirstPending(plan: seq<Cell>, completed: seq<Measurement>): (at: nat)
    ensures at <= |plan| && (at < |plan| ==> !Done(completed, KeyOf(plan[at])))
    ensures forall j :: 0 <= j < at ==> Done(completed, KeyOf(plan[j]))
  {
    if |plan| == 0 then 0
    else
      var n := |plan| - 1;
      var at := FirstPending(plan[..n], completed);
      if at == n && Done(completed, KeyOf(plan[n])) then n + 1 else at
  }

  /** The first cell of the plan whose coordinate has no result. */
  function NextOf(plan: seq<Cell>, completed: seq<Measurement>): Option<Cell> {
    var at := FirstPending(plan, completed);
    if at < |plan| then Some(plan[at]) else None
  }

  // ---------------------------------------------------------------- the knee

  const MIN_GAIN: real := 0.10

  function Gain(pairs: seq<(int, real)>, i: nat): real
    requires 0 < i < |pairs|
  {
    pairs[i].1 - pairs[i - 1].1
  }

  ghost predicate IsMaxGain(pairs: seq<(int, real)>, g: real)
    requires |pairs| >= 2
  {
    && (exists i :: 0 < i < |pairs| && Gain(pairs, i) == g)
    && forall i :: 0 < i < |pairs| ==> Gain(pairs, i) <= g
  }

  /** The knee is the first step whose gain is below a tenth of the largest gain there is, a largest gain of
      zero counting as one. */
  ghost predicate IsKnee(pairs: seq<(int, real)>, knee: Option<int>) {
    if |pairs| < 3 then knee == None
    else
      exists g :: IsMaxGain(pairs, g) &&
        var bar := MIN_GAIN * (if g == 0.0 then 1.0 else g);
        match knee
        case None => forall i :: 0 < i < |pairs| ==> Gain(pairs, i) >= bar
        case Some(c) => FirstBelow(pairs, bar, c)
  }

  ghost predicate FirstBelow(pairs: seq<(int, real)>, bar: real, c: int) {
    exists i :: 0 < i < |pairs| && pairs[i].0 == c && Gain(pairs, i) < bar
      && forall j :: 0 < j < i ==> Gain(pairs, j) >= bar
  }

  // ---------------------------------------------------------------- the cells a refinement proposes

  const DEFAULT_ISL: seq<int> := [128, 512, 1024, 2048, 4096, 8192, 16384, 32768, 65536, 131072, 262144, 524288]

  function UpTo(contexts: seq<int>, most: Option<int>): seq<int> {
    if |contexts| == 0 then []
    else
      var n := |contexts| - 1;
      UpTo(contexts[..n], most) + if most.None? || contexts[n] <= most.value then [contexts[n]] else []
  }

  function RepresentativeContext(contexts: seq<int>): int {
    if |contexts| == 0 then 4096 else contexts[|contexts| / 2]
  }

  function KneeCell(limits: Limits, concurrency: int): Cell {
    Cell(RepresentativeContext(UpTo(DEFAULT_ISL, limits.maxContext)), 512, concurrency, Cold, ClosedLoop, 1, None)
  }

  function Candidates(base: int): seq<int> {
    [base / 2, base - 1, base, base + 1, base * 2]
  }

  predicate WithinCap(limits: Limits, concurrency: int) {
    limits.maxConcurrency.None? || limits.maxConcurrency.value == 0 || concurrency <= limits.maxConcurrency.value
  }

  predicate Measured(completed: seq<Measurement>, concurrency: int) {
    exists i :: 0 <= i < |completed| && completed[i].workload.load == ClosedLoop
      && completed[i].workload.concurrency == concurrency
  }

  predicate Wanted(limits: Limits, completed: seq<Measurement>, concurrency: int) {
    concurrency >= 1 && WithinCap(limits, concurrency) && !Measured(completed, concurrency)
  }

  function KneeCells(limits: Limits, completed: seq<Measurement>, candidates: seq<int>): seq<Cell> {
    if |candidates| == 0 then []
    else
      var n := |candidates| - 1;
      KneeCells(limits, completed, candidates[..n])
      + if Wanted(limits, completed, candidates[n]) then [KneeCell(limits, candidates[n])] else []
  }

  predicate HighVariance(cv: Option<real>) {
    cv.Some? && cv.value > 0.35
  }

  predicate NeedsRepetition(m: Measurement) {
    (HighVariance(m.metrics.ttftCv) || HighVariance(m.metrics.itlCv)) && m.workload.repetitions < 3
  }

  /** One repetition more; the arrival rate is not carried over. */
  function ExtraCell(w: Cell): Cell {
    Cell(w.inputTokens, w.targetTokens, w.concurrency, w.cache, w.load, w.repetitions + 1, None)
  }

  function ExtraCells(completed: seq<Measurement>): seq<Cell> {
    if |completed| == 0 then []
    else
      var n := |completed| - 1;
      ExtraCells(completed[..n]) + if NeedsRepetition(completed[n]) then [ExtraCell(completed[n].workload)] else []
  }

  /** Two cells share a coordinate exactly when they differ in nothing but the repetitions and how a rate of zero is
      written. */
  lemma {:induction false} SameCoordinateExactly(a: Cell, b: Cell)
    ensures KeyOf(a) == KeyOf(b) <==>
      && a.inputTokens == b.inputTokens && a.targetTokens == b.targetTokens && a.concurrency == b.concurrency
      && a.cache == b.cache && a.load == b.load
      && (a.rate == b.rate || (a.rate in {None, Some(0.0)} && b.rate in {None, Some(0.0)}))
  {
  }

  /** The contexts that are allowed, in order, and how many there are: what a cell around a knee has as its context is
      the middle one, or 4096. */
  lemma {:induction false} KneeCellIsTheMiddle(limits: Limits, concurrency: int) returns (n: nat)
    ensures n <= 12 == |DEFAULT_ISL| && DEFAULT_ISL[0] == 128 && DEFAULT_ISL[1] == 512
    ensures forall k :: 1 < k < 12 ==> DEFAULT_ISL[k] == 2 * DEFAULT_ISL[k - 1]
    ensures forall k :: 0 <= k < 12 ==>
      (k < n <==> limits.maxContext.None? || DEFAULT_ISL[k] <= limits.maxContext.value)
    ensures KneeCell(limits, concurrency)
         == Cell(if n == 0 then 4096 else DEFAULT_ISL[n / 2], 512, concurrency, Cold, ClosedLoop, 1, None)
  {
    n := AllowedContexts(DEFAULT_ISL, limits.maxContext);
  }

  lemma {:induction false} AllowedContexts(contexts: seq<int>, most: Option<int>) returns (n: nat)
    requires forall i, j :: 0 <= i < j < |contexts| ==> contexts[i] < contexts[j]
    ensures n <= |contexts| && UpTo(contexts, most) == contexts[..n]
    ensures forall k :: 0 <= k < |contexts| ==> (k < n <==> most.None? || contexts[k] <= most.value)
    decreases |contexts|
  {
    n := |contexts|;
    if n == 0 || most.None? || contexts[n - 1] <= most.value {
      AllAllowed(contexts, most);
    } else {
      var front := contexts[..n - 1];
      n := AllowedContexts(front, most);
      assert front[..n] == contexts[..n];
      hide UpTo;
      forall k | 0 <= k < |contexts| ensures k < n <==> contexts[k] <= most.value {
        assert k < |front| ==> front[k] == contexts[k];
      }
    }
  }

  lemma {:induction false} AllAllowed(contexts: seq<int>, most: Option<int>)
    requires most.None? || forall k :: 0 <= k < |contexts| ==> contexts[k] <= most.value
    ensures UpTo(contexts, most) == contexts
    decreases |contexts|
  {
    if |contexts| > 0 {
      AllAllowed(contexts[..|contexts| - 1], most);
    }
  }

  /** What a knee proposes: the levels at half of it, one below, itself, one above and double, as far as they are
      positive, the cap allows them and no closed-loop result is at that level yet; in this order. */
  lemma {:induction false} ProposedAroundKneeExactly(limits: Limits, completed: seq<Measurement>, knee: int, level: int)
    ensures KneeCell(limits, level) in KneeCells(limits, completed, Candidates(knee)) <==>
      && level in {knee / 2, knee - 1, knee, knee + 1, 2 * knee} && level >= 1
      && (limits.maxConcurrency.None? || limits.maxConcurrency.value == 0 || level <= limits.maxConcurrency.value)
      && forall i :: 0 <= i < |completed| && completed[i].workload.load == ClosedLoop ==>
           completed[i].workload.concurrency != level
    ensures forall c :: c in KneeCells(limits, completed, Candidates(knee)) ==> c == KneeCell(limits, c.concurrency)
    ensures KneeCells(limits, completed, Candidates(knee))
         == KneeCells(limits, completed, [knee / 2]) + KneeCells(limits, completed, [knee - 1])
          + KneeCells(limits, completed, [knee]) + KneeCells(limits, completed, [knee + 1])
          + KneeCells(limits, completed, [2 * knee])
  {
    KneeCellsExactly(limits, completed, Candidates(knee), level);
    var five := Candidates(knee);
    assert five == [knee / 2] + [knee - 1] + [knee] + [knee + 1] + [2 * knee];
    KneeCellsInOrder(limits, completed, [knee / 2], [knee - 1]);
    KneeCellsInOrder(limits, completed, [knee / 2] + [knee - 1], [knee]);
    KneeCellsInOrder(limits, completed, [knee / 2] + [knee - 1] + [knee], [knee + 1]);
    KneeCellsInOrder(limits, completed, [knee / 2] + [knee - 1] + [knee] + [knee + 1], [2 * knee]);
    hide KneeCells, Wanted, KneeCell;
    assert five[0] == knee / 2 && five[1] == knee - 1 && five[2] == knee && five[3] == knee + 1 && five[4] == 2 * knee;
    assert level in five <==> level in {knee / 2, knee - 1, knee, knee + 1, 2 * knee};
  }

  lemma {:induction false} KneeCellsInOrder(limits: Limits, completed: seq<Measurement>, a: seq<int>, b: seq<int>)
    ensures KneeCells(limits, completed, a + b) == KneeCells(limits, completed, a) + KneeCells(limits, completed, b)
    decreases |b|
  {
    if |b| == 0 {
      assert a + b == a;
    } else {
      var n := |b| - 1;
      assert (a + b)[..|a| + n] == a + b[..n];
      KneeCellsInOrder(limits, completed, a, b[..n]);
      hide Wanted, KneeCell;
    }
  }

  lemma {:induction false} KneeCellsExactly(limits: Limits, completed: seq<Measurement>, candidates: seq<int>,
                                            level: int)
    ensures KneeCell(limits, level) in KneeCells(limits, completed, candidates) <==>
      level in candidates && Wanted(limits, completed, level)
    ensures forall c :: c in KneeCells(limits, completed, candidates) ==> c == KneeCell(limits, c.concurrency)
    decreases |candidates|
  {
    if |candidates| > 0 {
      var n := |candidates| - 1;
      KneeCellsExactly(limits, completed, candidates[..n], level);
      assert KneeCell(limits, candidates[n]).concurrency == candidates[n];
      assert candidates == candidates[..n] + [candidates[n]];
      hide Wanted;
    }
  }

  /** What noise proposes: for each result that varies by more than 0.35 in either latency and was repeated less than
      three times, its workload with one repetition more and no rate. */
  lemma {:induction false} ProposedForNoiseExactly(completed: seq<Measurement>, c: Cell)
    ensures c in ExtraCells(completed) <==> exists i :: 0 <= i < |completed| && NoisyAs(completed[i], c)
    decreases |completed|
  {
    if |completed| > 0 {
      var n := |completed| - 1;
      var front := completed[..n];
      ProposedForNoiseExactly(front, c);
      assert c in ExtraCells(completed) <==> c in ExtraCells(front) || NoisyAs(completed[n], c);
      hide NoisyAs, ExtraCells;
      assert forall i :: 0 <= i < n ==> front[i] == completed[i];
    }
  }

  /** The extra cells come in the order of their results. */
  lemma {:induction false} ProposedInOrder(earlier: seq<Measurement>, later: seq<Measurement>)
    ensures ExtraCells(earlier + later) == ExtraCells(earlier) + ExtraCells(later)
    decreases |later|
  {
    if |later| == 0 {
      assert earlier + later == earlier;
    } else {
      var n := |later| - 1;
      assert (earlier + later)[..|earlier| + n] == earlier + later[..n];
      ProposedInOrder(earlier, later[..n]);
      hide NeedsRepetition, ExtraCell;
    }
  }

  predicate NoisyAs(m: Measurement, c: Cell) {
    var w, ttft, itl := m.workload, m.metrics.ttftCv, m.metrics.itlCv;
    && ((ttft.Some? && ttft.value > 0.35) || (itl.Some? && itl.value > 0.35)) && w.repetitions < 3
    && c == Cell(w.inputTokens, w.targetTokens, w.concurrency, w.cache, w.load, w.repetitions + 1, None)
  }

  predicate Planned(plan: seq<Cell>, key: Key) {
    exists i :: 0 <= i < |plan| && KeyOf(plan[i]) == key
  }

  /** The plan with those of `cells` whose coordinate is new, each coordinate once. */
  function Extended(s: State, cells: seq<Cell>): (plan: seq<Cell>)
    ensures s.plan <= plan
  {
    if |cells| == 0 then s.plan
    else
      var plan, c := Extended(s, cells[..|cells| - 1]), cells[|cells| - 1];
      if Planned(plan, KeyOf(c)) || Done(s.completed, KeyOf(c)) then plan else plan + [c]
  }

  // ---------------------------------------------------------------- the coordinates a run can reach

  function Rateless(k: Key): Key {
    k.(rate := 0.0)
  }

  function PlanKeys(plan: seq<Cell>): set<Key> {
    set i | 0 <= i < |plan| :: KeyOf(plan[i])
  }

  function DoneKeys(completed: seq<Measurement>): set<Key> {
    set i | 0 <= i < |completed| :: KeyOf(completed[i].workload)
  }

  function RatelessKeys(plan: seq<Cell>): set<Key> {
    set i | 0 <= i < |plan| :: Rateless(KeyOf(plan[i]))
  }

  function KneeKeys(limits: Limits, cap: nat): set<Key> {
    set c | 1 <= c <= cap :: KeyOf(KneeCell(limits, c))
  }

  /** The highest level a refinement may propose; a missing cap and a cap of zero are none. */
  function CapOf(limits: Limits): Option<nat> {
    if limits.maxConcurrency.None? || limits.maxConcurrency.value == 0 then None
    else Some(if limits.maxConcurrency.value < 0 then 0 else limits.maxConcurrency.value)
  }

  /** Everything a run can ever measure that starts from the plan and proposes no level above `reach`. */
  function Universe(limits: Limits, reach: nat, plan: seq<Cell>): set<Key> {
    PlanKeys(plan) + RatelessKeys(plan) + KneeKeys(limits, reach)
  }

  lemma {:induction false} PlanKeysBound(plan: seq<Cell>)
    ensures |PlanKeys(plan)| <= |plan| && |RatelessKeys(plan)| <= |plan|
    decreases |plan|
  {
    if |plan| > 0 {
      var front, last := plan[..|plan| - 1], plan[|plan| - 1];
      PlanKeysBound(front);
      assert PlanKeys(plan) == PlanKeys(front) + {KeyOf(last)} by {
        assert plan[|plan| - 1] == last;
        assert forall i :: 0 <= i < |front| ==> front[i] == plan[i];
      }
      assert RatelessKeys(plan) == RatelessKeys(front) + {Rateless(KeyOf(last))} by {
        assert plan[|plan| - 1] == last;
        assert forall i :: 0 <= i < |front| ==> front[i] == plan[i];
      }
    }
  }

  lemma {:induction false} KneeKeysBound(limits: Limits, cap: nat)
    ensures |KneeKeys(limits, cap)| <= cap
    decreases cap
  {
    if cap == 0 {
      assert KneeKeys(limits, cap) == {};
    } else {
      KneeKeysBound(limits, cap - 1);
      assert KneeKeys(limits, cap) == KneeKeys(limits, cap - 1) + {KeyOf(KneeCell(limits, cap))};
    }
  }

  /** The universe is finite and small: two coordinates for each planned cell and one for each level. */
  lemma {:induction false} UniverseBound(limits: Limits, cap: nat, plan: seq<Cell>)
    ensures |Universe(limits, cap, plan)| <= 2 * |plan| + cap
  {
    PlanKeysBound(plan);
    KneeKeysBound(limits, cap);
    UnionBound(PlanKeys(plan), RatelessKeys(plan));
    UnionBound(PlanKeys(plan) + RatelessKeys(plan), KneeKeys(limits, cap));
  }

  lemma {:induction false} UnionBound(a: set<Key>, b: set<Key>)
    ensures |a + b| <= |a| + |b|
  {
    assert a + b == a + (b - a);
    assert |b - a| <= |b| by {
      SubsetBound(b - a, b);
    }
  }

  lemma {:induction false} SubsetBound(a: set<Key>, b: set<Key>)
    requires a <= b
    ensures |a| <= |b|
  {
    assert b == a + (b - a);
  }

  /** Refining stays inside the universe. */
  ghost predicate Closed(universe: set<Key>, limits: Limits, cap: nat) {
    && KneeKeys(limits, cap) <= universe
    && forall k :: k in universe ==> Rateless(k) in universe
  }

  lemma {:induction false} UniverseClosed(limits: Limits, cap: nat, plan: seq<Cell>)
    ensures Closed(Universe(limits, cap, plan), limits, cap)
    ensures PlanKeys(plan) <= Universe(limits, cap, plan)
  {
    forall k | k in Universe(limits, cap, plan) ensures Rateless(k) in Universe(limits, cap, plan) {
      if k in PlanKeys(plan) {
        var i :| 0 <= i < |plan| && KeyOf(plan[i]) == k;
        assert Rateless(KeyOf(plan[i])) in RatelessKeys(plan);
      } else {
        assert k.rate == 0.0;
        assert Rateless(k) == k;
      }
    }
  }

  ghost predicate CellsIn(cells: seq<Cell>, universe: set<Key>) {
    forall i :: 0 <= i < |cells| ==> KeyOf(cells[i]) in universe
  }

  /** The candidates that a cap lets through are no higher than `reach`. */
  ghost predicate Reached(limits: Limits, candidates: seq<int>, reach: nat) {
    forall i :: 0 <= i < |candidates| && WithinCap(limits, candidates[i]) ==> candidates[i] <= reach
  }

  lemma {:induction false} KneeCellsIn(limits: Limits, completed: seq<Measurement>, candidates: seq<int>,
                                       universe: set<Key>, reach: nat)
    requires Closed(universe, limits, reach) && Reached(limits, candidates, reach)
    ensures CellsIn(KneeCells(limits, completed, candidates), universe)
    decreases |candidates|
  {
    if |candidates| > 0 {
      KneeCellsIn(limits, completed, candidates[..|candidates| - 1], universe, reach);
      var c := candidates[|candidates| - 1];
      if Wanted(limits, completed, c) {
        assert KeyOf(KneeCell(limits, c)) in KneeKeys(limits, reach);
      }
    }
  }

  lemma {:induction false} ExtraCellsIn(completed: seq<Measurement>, universe: set<Key>, limits: Limits, reach: nat)
    requires Closed(universe, limits, reach) && DoneKeys(completed) <= universe
    ensures CellsIn(ExtraCells(completed), universe)
    decreases |completed|
  {
    if |completed| > 0 {
      var n := |completed| - 1;
      assert forall k :: k in DoneKeys(completed[..n]) ==> k in DoneKeys(completed) by {
        assert forall i :: 0 <= i < n ==> completed[..n][i] == completed[i];
      }
      ExtraCellsIn(completed[..n], universe, limits, reach);
      assert KeyOf(completed[n].workload) in DoneKeys(completed);
      assert KeyOf(ExtraCell(completed[n].workload)) == Rateless(KeyOf(completed[n].workload));
    }
  }

  lemma {:induction false} ExtendedIn(s: State, cells: seq<Cell>, universe: set<Key>)
    requires CellsIn(s.plan, universe) && CellsIn(cells, universe)
    ensures CellsIn(Extended(s, cells), universe)
    decreases |cells|
  {
    if |cells| > 0 {
      ExtendedIn(s, cells[..|cells| - 1], universe);
    }
  }

  lemma {:induction false} PlannedGrows(plan: seq<Cell>, longer: seq<Cell>, key: Key)
    requires plan <= longer
    ensures Planned(plan, key) ==> Planned(longer, key)
  {
    assert forall i :: 0 <= i < |plan| ==> longer[i] == plan[i];
  }

  /** What a refinement adds to the plan has a coordinate that is neither planned nor measured. */
  lemma {:induction false} ExtendedIsNew(s: State, cells: seq<Cell>, i: nat)
    requires |s.plan| <= i < |Extended(s, cells)|
    ensures !Planned(s.plan, KeyOf(Extended(s, cells)[i])) && !Done(s.completed, KeyOf(Extended(s, cells)[i]))
    ensures Extended(s, cells)[i] in cells
    decreases |cells|
  {
    if |cells| > 0 {
      var before := Extended(s, cells[..|cells| - 1]);
      if i < |before| {
        ExtendedIsNew(s, cells[..|cells| - 1], i);
      } else {
        PlannedGrows(s.plan, before, KeyOf(cells[|cells| - 1]));
      }
    }
  }

  /** The proposal at `j` is the first one of its coordinate, and that is neither planned nor measured. */
  predicate Joins(s: State, cells: seq<Cell>, j: nat) {
    && j < |cells| && !Planned(s.plan, KeyOf(cells[j])) && !Done(s.completed, KeyOf(cells[j]))
    && forall i :: 0 <= i < j ==> KeyOf(cells[i]) != KeyOf(cells[j])
  }

  /** A refinement appends, in the order they were proposed, exactly the proposals that come first with a coordinate
      neither planned nor measured. */
  lemma {:induction false} ExtendedExactly(s: State, cells: seq<Cell>) returns (places: seq<nat>)
    ensures |Extended(s, cells)| == |s.plan| + |places|
    ensures forall x :: 0 <= x < |places| ==>
      Joins(s, cells, places[x]) && Extended(s, cells)[|s.plan| + x] == cells[places[x]]
    ensures forall x, y :: 0 <= x < y < |places| ==> places[x] < places[y]
    ensures forall j: nat :: Joins(s, cells, j) ==> j in places
    decreases |cells|
  {
    places := [];
    if |cells| > 0 {
      var n := |cells| - 1;
      var front := cells[..n];
      places := ExtendedExactly(s, front);
      forall j: nat | j < n ensures Joins(s, cells, j) <==> Joins(s, front, j) {
        JoinsBefore(s, cells, j);
      }
      assert Joins(s, cells, n) <==> |Extended(s, cells)| > |Extended(s, front)| by {
        PlannedAfter(s, front, KeyOf(cells[n]));
      }
      hide Joins, Planned, Done;
      if Joins(s, cells, n) {
        places := places + [n];
      }
    }
  }

  lemma {:induction false} JoinsBefore(s: State, cells: seq<Cell>, j: nat)
    requires j < |cells| - 1
    ensures Joins(s, cells, j) <==> Joins(s, cells[..|cells| - 1], j)
  {
    hide Planned, Done;
    var front := cells[..|cells| - 1];
    assert forall i :: 0 <= i < |front| ==> front[i] == cells[i];
  }

  lemma {:induction false} PlannedAfter(s: State, cells: seq<Cell>, key: Key)
    ensures Planned(Extended(s, cells), key) <==>
      Planned(s.plan, key) || (!Done(s.completed, key) && exists j :: 0 <= j < |cells| && KeyOf(cells[j]) == key)
    decreases |cells|
  {
    if |cells| > 0 {
      var n := |cells| - 1;
      var front := cells[..n];
      PlannedAfter(s, front, key);
      var plan := Extended(s, front);
      PlannedGrows(plan, plan + [cells[n]], key);
      assert Planned(plan + [cells[n]], key) <==> Planned(plan, key) || KeyOf(cells[n]) == key by {
        assert (plan + [cells[n]])[|plan|] == cells[n];
        assert forall i :: 0 <= i < |plan| ==> (plan + [cells[n]])[i] == plan[i];
      }
      hide Planned, Done, KeyOf;
      assert forall i :: 0 <= i < n ==> front[i] == cells[i];
    }
  }

  /** The promised extra repetition of a noisy cell is proposed and then dropped, because its coordinate is the
      one just measured; it joins the plan exactly when the cell had an arrival rate, and then without it, as
      another workload. */
  lemma {:induction false} ExtraRepetitionNeedsRate(s: State, cells: seq<Cell>, m: Measurement)
    requires m in s.completed
    ensures KeyOf(ExtraCell(m.workload)) == KeyOf(m.workload) <==> KeyOf(m.workload).rate == 0.0
    ensures KeyOf(m.workload).rate == 0.0 ==>
      forall i :: |s.plan| <= i < |Extended(s, cells)| ==> KeyOf(Extended(s, cells)[i]) != KeyOf(ExtraCell(m.workload))
    ensures KeyOf(m.workload).rate != 0.0 && ExtraCell(m.workload) in cells
         && !Done(s.completed, KeyOf(ExtraCell(m.workload)))
      ==> Planned(Extended(s, cells), KeyOf(ExtraCell(m.workload)))
  {
    forall i | |s.plan| <= i < |Extended(s, cells)|
      ensures !Done(s.completed, KeyOf(Extended(s, cells)[i]))
    {
      ExtendedIsNew(s, cells, i);
    }
    assert Done(s.completed, KeyOf(m.workload));
    if ExtraCell(m.workload) in cells && !Done(s.completed, KeyOf(ExtraCell(m.workload))) {
      ExtendedHasAll(s, cells, ExtraCell(m.workload));
    }
  }

  lemma {:induction false} ExtendedHasAll(s: State, cells: seq<Cell>, c: Cell)
    requires c in cells && !Done(s.completed, KeyOf(c))
    ensures Planned(Extended(s, cells), KeyOf(c))
    decreases |cells|
  {
    var before, plan := Extended(s, cells[..|cells| - 1]), Extended(s, cells);
    if cells[|cells| - 1] == c && !Planned(before, KeyOf(c)) {
      assert plan[|plan| - 1] == c;
    } else {
      if cells[|cells| - 1] != c {
        ExtendedHasAll(s, cells[..|cells| - 1], c);
      }
      var i :| 0 <= i < |before| && KeyOf(before[i]) == KeyOf(c);
      assert plan[i] == before[i];
    }
  }
}
