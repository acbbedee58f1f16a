/** How the saturation knee of `llmbench/src/llmbench/planner/plan.py` moves while results come in: each time it is
    higher than it was, the largest gain is smaller than it was. */
module PlannerKnees {
  import opened PlannerModel
  import opened Planner

  /** What `_find_saturation_knee` is called with. */
  function PairsOf(completed: seq<Measurement>): seq<(int, real)> {
    Sort(ClosedLoopPairs(completed))
  }

  /** What the code holds every gain against. */
  function Bar(most: real): real {
    MIN_GAIN * (if most == 0.0 then 1.0 else most)
  }

  lemma {:induction false} MaxGainIsOne(pairs: seq<(int, real)>, g: real, most: real)
    requires |pairs| >= 2 && IsMaxGain(pairs, g) && IsMaxGain(pairs, most)
    ensures g == most
  {
    var i :| 0 < i < |pairs| && Gain(pairs, i) == g;
    var j :| 0 < j < |pairs| && Gain(pairs, j) == most;
  }

  // ---------------------------------------------------------------- results that come in stay in order

  /** The one pair stands before the other. */
  ghost predicate Before(x: (int, real), y: (int, real), pairs: seq<(int, real)>) {
    exists a, b :: 0 <= a < b < |pairs| && pairs[a] == x && pairs[b] == y
  }

  /** Insertion puts the new pair somewhere and leaves the others in their order. */
  lemma {:induction false} InsertsAt(sorted: seq<(int, real)>, p: (int, real)) returns (k: nat)
    ensures k <= |sorted| && Insert(sorted, p) == sorted[..k] + [p] + sorted[k..]
    decreases |sorted|
  {
    k := |sorted|;
    if |sorted| > 0 && PairLess(p, sorted[|sorted| - 1]) {
      var n := |sorted| - 1;
      k := InsertsAt(sorted[..n], p);
      assert sorted[..n][..k] == sorted[..k] && sorted[..n][k..] + [sorted[n]] == sorted[k..];
    }
  }

  lemma {:induction false} InsertKeepsBefore(sorted: seq<(int, real)>, p: (int, real), x: (int, real), y: (int, real))
    requires Before(x, y, sorted)
    ensures Before(x, y, Insert(sorted, p))
  {
    hide Insert;
    var k := InsertsAt(sorted, p);
    var a, b :| 0 <= a < b < |sorted| && sorted[a] == x && sorted[b] == y;
    var longer := Insert(sorted, p);
    StaysInside(sorted, k, p, a);
    StaysInside(sorted, k, p, b);
    var a', b' := if a < k then a else a + 1, if b < k then b else b + 1;
    assert 0 <= a' < b' < |longer| && longer[a'] == x && longer[b'] == y;
  }

  lemma {:induction false} StaysInside(sorted: seq<(int, real)>, k: nat, p: (int, real), i: nat)
    requires k <= |sorted| && i < |sorted|
    ensures (sorted[..k] + [p] + sorted[k..])[if i < k then i else i + 1] == sorted[i]
  {
  }

  lemma {:induction false} StaysBefore(earlier: seq<Measurement>, later: seq<Measurement>, x: (int, real),
                                       y: (int, real))
    requires earlier <= later && Before(x, y, PairsOf(earlier))
    ensures Before(x, y, PairsOf(later))
    decreases |later|
  {
    hide PairsOf, Before, Insert;
    if |earlier| < |later| {
      var n := |later| - 1;
      assert earlier <= later[..n];
      StaysBefore(earlier, later[..n], x, y);
      OneMoreResult(later);
      if later[n].workload.load == ClosedLoop {
        InsertKeepsBefore(PairsOf(later[..n]), PairOf(later[n]), x, y);
      }
    } else {
      assert earlier == later;
    }
  }

  function PairOf(m: Measurement): (int, real) {
    (m.workload.concurrency, m.metrics.outputTps)
  }

  lemma {:induction false} OneMoreResult(completed: seq<Measurement>)
    requires |completed| > 0
    ensures var m, before := completed[|completed| - 1], PairsOf(completed[..|completed| - 1]);
      PairsOf(completed) == if m.workload.load == ClosedLoop then Insert(before, PairOf(m)) else before
  {
    var m, pairs := completed[|completed| - 1], ClosedLoopPairs(completed[..|completed| - 1]);
    assert (pairs + [PairOf(m)])[..|pairs|] == pairs && pairs + [] == pairs;
    hide Insert;
  }

  // ---------------------------------------------------------------- a knee higher than before

  ghost predicate LevelsInOrder(pairs: seq<(int, real)>) {
    forall i, j :: 0 <= i <= j < |pairs| ==> pairs[i].0 <= pairs[j].0
  }

  lemma {:induction false} LevelsAscend(pairs: seq<(int, real)>)
    requires Ascending(pairs)
    ensures LevelsInOrder(pairs)
  {
    assert forall i, j :: 0 <= i < j < |pairs| ==> !PairLess(pairs[j], pairs[i]);
  }

  /** Steps that gain at least `bar` each climb at least that much together. */
  lemma {:induction false} Climbs(pairs: seq<(int, real)>, a: nat, b: nat, bar: real)
    requires a < b < |pairs| && bar > 0.0
    requires forall i :: a < i <= b ==> Gain(pairs, i) >= bar
    ensures pairs[b].1 - pairs[a].1 >= bar
    decreases b - a
  {
    assert Gain(pairs, b) >= bar;
    if a < b - 1 {
      Climbs(pairs, a, b - 1, bar);
    }
  }

  /** Each time the knee is higher than it was after fewer results, the largest gain is positive and smaller than it
      was: the step to the old knee gained little then, and is above the bar now. */
  lemma {:induction false} HigherKneeLowersMost(earlier: seq<Measurement>, later: seq<Measurement>, c: int, d: int,
                                                g: real, h: real)
    requires earlier <= later && c < d && |PairsOf(earlier)| >= 3 && |PairsOf(later)| >= 3
    requires IsKnee(PairsOf(earlier), Some(c)) && IsMaxGain(PairsOf(earlier), g)
    requires IsKnee(PairsOf(later), Some(d)) && IsMaxGain(PairsOf(later), h)
    ensures 0.0 < h < g
  {
    var p, q := PairsOf(earlier), PairsOf(later);
    var a := KneeAt(p, c, g);
    var b := KneeAt(q, d, h);
    assert Before(p[a - 1], p[a], p);
    StaysBefore(earlier, later, p[a - 1], p[a]);
    SortSorts(ClosedLoopPairs(later));
    LevelsAscend(q);
    BelowBar(p, a, g);
    hide PairsOf, IsKnee, Ascending;
    var a', b' := FoundBelow(q, p[a - 1], p[a], b);
    BarIsReached(q, h, b);
    Climbs(q, a', b', Bar(h));
  }

  lemma {:induction false} FoundBelow(pairs: seq<(int, real)>, x: (int, real), y: (int, real), b: nat)
    returns (a': nat, b': nat)
    requires LevelsInOrder(pairs) && Before(x, y, pairs) && b < |pairs| && y.0 < pairs[b].0
    ensures a' < b' < b && pairs[a'] == x && pairs[b'] == y
  {
    a', b' :| 0 <= a' < b' < |pairs| && pairs[a'] == x && pairs[b'] == y;
    assert b' < b;
  }

  lemma {:induction false} KneeAt(pairs: seq<(int, real)>, c: int, most: real) returns (at: nat)
    requires |pairs| >= 3 && IsKnee(pairs, Some(c)) && IsMaxGain(pairs, most)
    ensures 0 < at < |pairs| && pairs[at].0 == c && Gain(pairs, at) < Bar(most)
    ensures forall j :: 0 < j < at ==> Gain(pairs, j) >= Bar(most)
  {
    var g :| IsMaxGain(pairs, g) && FirstBelow(pairs, Bar(g), c);
    MaxGainIsOne(pairs, g, most);
    hide IsMaxGain, IsKnee, Gain;
    at :| 0 < at < |pairs| && pairs[at].0 == c && Gain(pairs, at) < Bar(most)
      && forall j :: 0 < j < at ==> Gain(pairs, j) >= Bar(most);
  }

  /** When a step reaches the bar the largest gain is positive. */
  lemma {:induction false} BarIsReached(pairs: seq<(int, real)>, most: real, at: nat)
    requires |pairs| >= 2 && IsMaxGain(pairs, most) && 1 < at < |pairs|
    requires forall j :: 0 < j < at ==> Gain(pairs, j) >= Bar(most)
    ensures most > 0.0 && Bar(most) > 0.0
  {
    assert Bar(most) <= Gain(pairs, 1) <= most;
  }

  /** When a step is below the bar, that is the tenth of a positive gain or there is no positive gain at all. */
  lemma {:induction false} BelowBar(pairs: seq<(int, real)>, at: nat, most: real)
    requires 0 < at < |pairs| && IsMaxGain(pairs, most) && Gain(pairs, at) < Bar(most)
    ensures Gain(pairs, at) > 0.0 ==> most > 10.0 * Gain(pairs, at)
  {
    assert Gain(pairs, at) <= most;
  }

  // ---------------------------------------------------------------- throughputs of finite precision

  function Multiple(k: int, unit: real): real {
    k as real * unit
  }

  /** A whole multiple of `unit`, as every floating-point number is of the smallest positive one. */
  ghost predicate OnGrid(x: real, unit: real) {
    exists k :: x == Multiple(k, unit)
  }

  ghost predicate AllOnGrid(completed: seq<Measurement>, unit: real) {
    forall i :: 0 <= i < |completed| ==> OnGrid(completed[i].metrics.outputTps, unit)
  }

  lemma {:induction false} PairsOnGrid(completed: seq<Measurement>, unit: real)
    requires AllOnGrid(completed, unit)
    ensures forall p :: p in PairsOf(completed) ==> OnGrid(p.1, unit)
    decreases |completed|
  {
    if |completed| > 0 {
      var n := |completed| - 1;
      PairsOnGrid(completed[..n], unit);
      OneMoreResult(completed);
      InsertAdds(PairsOf(completed[..n]), PairOf(completed[n]));
      hide PairsOf, OnGrid, Insert;
      assert OnGrid(completed[n].metrics.outputTps, unit);
      forall p | p in PairsOf(completed) ensures OnGrid(p.1, unit) {
        assert p in multiset(PairsOf(completed));
      }
    }
  }

  lemma {:induction false} MostOnGrid(completed: seq<Measurement>, most: real, unit: real)
    requires |PairsOf(completed)| >= 2 && IsMaxGain(PairsOf(completed), most) && AllOnGrid(completed, unit)
    ensures OnGrid(most, unit)
  {
    var pairs := PairsOf(completed);
    PairsOnGrid(completed, unit);
    var i :| 0 < i < |pairs| && Gain(pairs, i) == most;
    assert pairs[i] in pairs && pairs[i - 1] in pairs;
    DifferenceOnGrid(pairs[i].1, pairs[i - 1].1, unit);
  }

  lemma {:induction false} DifferenceOnGrid(x: real, y: real, unit: real)
    requires OnGrid(x, unit) && OnGrid(y, unit)
    ensures OnGrid(x - y, unit)
  {
    var j :| x == Multiple(j, unit);
    var k :| y == Multiple(k, unit);
    assert x - y == Multiple(j - k, unit);
  }

  /** How many units a multiple is. */
  ghost function Units(x: real, unit: real): (k: int)
    requires OnGrid(x, unit)
    ensures x == Multiple(k, unit)
  {
    var k :| x == Multiple(k, unit);
    k
  }

  lemma {:induction false} FewerUnits(x: real, y: real, unit: real)
    requires unit > 0.0 && OnGrid(x, unit) && OnGrid(y, unit) && 0.0 < x < y
    ensures 0 < Units(x, unit) < Units(y, unit)
  {
    var j, k := Units(x, unit), Units(y, unit);
    assert Multiple(k, unit) - Multiple(j, unit) == (k - j) as real * unit;
  }
}
