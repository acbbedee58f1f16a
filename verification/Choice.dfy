/** Which endpoint a request gets: the reserve-first-free loops of `router/internal/proxy/proxy.go` and of `Select`
    in `.../routing/classify.go`, against a choice defined without any sorting, and the two against each other. */
module Choice {
  import opened RegistryTable
  import opened Routing

  // ---------------------------------------------------------------- the first free of a sorted list

  predicate HasSlot(e: Entry)
    reads e.pool
  {
    e.pool.inflight < e.pool.capacity
  }

  /** The entries of a list whose pool has a slot left. */
  function Slots(es: seq<Entry>): set<Entry>
    reads set e | e in es :: e.pool
  {
    set e | e in es && HasSlot(e)
  }

  /** The endpoints that could take the request now. */
  function Usable(t: Table, need: Need): set<Entry>
    reads set id | id in t :: t[id].pool, set id | id in t :: t[id].state
  {
    set id | id in t && RejectedFor(t[id], need).None? && HasSlot(t[id]) :: t[id]
  }

  /** An endpoint is usable when it can do what is asked, has the context, is in service and has a slot left. */
  lemma {:induction false} UsableExactly(t: Table, id: Id, need: Need)
    requires id in t
    ensures var m, st, p := t[id].manifest, t[id].state, t[id].pool;
      t[id] in Usable(t, need) <==>
        && (need.images ==> m.vision) && (need.tools ==> m.tools) && (need.streaming ==> m.streaming)
        && need.context <= m.maxContext && st.enabled && st.healthy && !st.draining && p.inflight < p.capacity
  {
    TurnedAwayForCause(t[id], need);
  }

  /** When nothing can serve a need, nothing can serve a greater one. */
  lemma {:induction false} SmallerNeedIsServed(t: Table, smaller: Need, need: Need)
    requires AsksNoMore(smaller, need)
    ensures Usable(t, need) <= Usable(t, smaller)
  {
    forall id | id in t && t[id] in Usable(t, need) ensures t[id] in Usable(t, smaller) {
      SmallerNeedPasses(t[id], smaller, need);
    }
  }

  function FirstIn(es: seq<Entry>, free: set<Entry>): Option<Entry> {
    if |es| == 0 then None else if es[0] in free then Some(es[0]) else FirstIn(es[1..], free)
  }

  lemma {:induction false} FirstInPush(es: seq<Entry>, e: Entry, free: set<Entry>)
    ensures FirstIn(es + [e], free)
            == if FirstIn(es, free).Some? then FirstIn(es, free) else if e in free then Some(e) else None
  {
    if |es| > 0 {
      FirstInPush(es[1..], e, free);
      assert (es + [e])[1..] == es[1..] + [e];
    } else {
      assert (es + [e])[1..] == [];
    }
  }

  lemma {:induction false} FirstInAt(es: seq<Entry>, k: nat, free: set<Entry>)
    requires k < |es| && es[k] in free && forall i :: 0 <= i < k ==> es[i] !in free
    ensures FirstIn(es, free) == Some(es[k])
  {
    if k > 0 {
      FirstInAt(es[1..], k - 1, free);
    }
  }

  lemma {:induction false} FirstInNone(es: seq<Entry>, free: set<Entry>)
    ensures FirstIn(es, free).None? <==> forall e :: e in es ==> e !in free
    ensures FirstIn(es, free).Some? ==> FirstIn(es, free).value in es && FirstIn(es, free).value in free
  {
    if |es| > 0 {
      FirstInNone(es[1..], free);
      assert forall e :: e in es ==> e == es[0] || e in es[1..];
    }
  }

  lemma {:induction false} FirstInSame(es: seq<Entry>, free: set<Entry>, other: set<Entry>)
    requires forall e :: e in es ==> (e in free <==> e in other)
    ensures FirstIn(es, free) == FirstIn(es, other)
  {
    if |es| > 0 {
      FirstInSame(es[1..], free, other);
    }
  }

  // ---------------------------------------------------------------- the choice without sorting

  /** One pass over the enumeration that keeps the best free entry so far and replaces it only by a strictly
      better one. */
  function FirstLeast(es: seq<Entry>, free: set<Entry>, less: Order): Option<Entry> {
    if |es| == 0 then None
    else
      var best, last := FirstLeast(es[..|es| - 1], free, less), es[|es| - 1];
      if last in free && (best.None? || less(last.manifest, best.value.manifest)) then Some(last) else best
  }

  /** Position `k` holds a free entry, strictly before every free one enumerated earlier, and none later is
      strictly before it. */
  ghost predicate Foremost(es: seq<Entry>, k: nat, free: set<Entry>, less: Order) {
    && k < |es| && es[k] in free
    && (forall i :: 0 <= i < k && es[i] in free ==> less(es[k].manifest, es[i].manifest))
    && (forall i :: k < i < |es| && es[i] in free ==> !less(es[i].manifest, es[k].manifest))
  }

  /** The first free one of the stably sorted list is the one the single pass keeps. */
  lemma {:induction false} SortedFirst(es: seq<Entry>, free: set<Entry>, less: Order)
    requires WeakOrder(less)
    ensures FirstIn(Sort(es, less), free) == FirstLeast(es, free, less)
  {
    hide WeakOrder, Sorted;
    if |es| > 0 {
      var front, last := es[..|es| - 1], es[|es| - 1];
      SortedFirst(front, free, less);
      SortSorts(front, less);
      InsertFirst(Sort(front, less), last, free, less);
    }
  }

  lemma {:induction false} InsertFirst(sorted: seq<Entry>, e: Entry, free: set<Entry>, less: Order)
    requires WeakOrder(less) && Sorted(sorted, less)
    ensures FirstIn(Insert(sorted, e, less), free)
            == var best := FirstIn(sorted, free);
               if e in free && (best.None? || less(e.manifest, best.value.manifest)) then Some(e) else best
    decreases |sorted|
  {
    if |sorted| > 0 {
      var front, last := sorted[..|sorted| - 1], sorted[|sorted| - 1];
      assert sorted == front + [last];
      FirstInPush(front, last, free);
      if less(e.manifest, last.manifest) {
        InsertFirst(front, e, free, less);
        FirstInPush(Insert(front, e, less), last, free);
      } else {
        FirstInPush(sorted, e, free);
        FirstInNone(sorted, free);
        if FirstIn(sorted, free).Some? {
          NotBefore(sorted, FirstIn(sorted, free).value, e, less);
        }
      }
    } else {
      FirstInPush(sorted, e, free);
    }
  }

  /** What the single pass keeps is the foremost, and there is one exactly when anything is free. */
  lemma {:induction false} FirstLeastIsForemost(es: seq<Entry>, free: set<Entry>, less: Order) returns (k: nat)
    requires WeakOrder(less)
    ensures FirstLeast(es, free, less).Some? ==>
      Foremost(es, k, free, less) && FirstLeast(es, free, less).value == es[k]
    ensures FirstLeast(es, free, less).None? <==> forall e :: e in es ==> e !in free
  {
    k := 0;
    if |es| > 0 {
      var n := |es| - 1;
      k := FirstLeastIsForemost(es[..n], free, less);
      var best := FirstLeast(es[..n], free, less);
      assert forall e :: e in es ==> e in es[..n] || e == es[n];
      if es[n] in free && (best.None? || less(es[n].manifest, best.value.manifest)) {
        if best.Some? {
          ForemostBeaten(es, k, n, free, less);
        } else {
          assert forall i :: 0 <= i < n ==> es[i] in es[..n];
        }
        k := n;
      } else if best.Some? {
        assert es[..n][k] == es[k];
        assert forall i :: 0 <= i < n ==> es[..n][i] == es[i];
      }
    }
  }

  /** A last entry strictly before the foremost of the others is strictly before all of them. */
  lemma {:induction false} ForemostBeaten(es: seq<Entry>, k: nat, n: nat, free: set<Entry>, less: Order)
    requires WeakOrder(less) && n == |es| - 1 && Foremost(es[..n], k, free, less)
    requires less(es[n].manifest, es[k].manifest)
    ensures forall i :: 0 <= i < n && es[i] in free ==> less(es[n].manifest, es[i].manifest)
  {
    forall i | 0 <= i < n && es[i] in free ensures less(es[n].manifest, es[i].manifest) {
      assert es[..n][i] == es[i];
      assert !less(es[i].manifest, es[k].manifest);
    }
  }

  /** There is only one foremost. */
  lemma {:induction false} ForemostIsOne(es: seq<Entry>, k: nat, l: nat, free: set<Entry>, less: Order)
    requires WeakOrder(less) && Foremost(es, k, free, less) && Foremost(es, l, free, less)
    ensures k == l
  {
  }

  // ---------------------------------------------------------------- the choice out of a table

  /** What filtering, sorting and reserving the first free one picks when the map is ranged over in `order`. */
  function Pick(t: Table, order: seq<Id>, need: Need, less: Order): Option<Entry>
    requires forall id :: id in order ==> id in t
    reads set id | id in t :: t[id].pool, set id | id in t :: t[id].state
  {
    var es := InOrder(t, order);
    assert forall e :: e in es ==> exists i :: 0 <= i < |order| && order[i] in t && e == t[order[i]];
    FirstIn(Sort(Eligible(es, need), less), Usable(t, need))
  }

  ghost predicate Keyed(t: Table) {
    forall id :: id in t ==> t[id].manifest.id == id
  }

  lemma {:induction false} ByIdKeeps(manifests: seq<Manifest>, id: Id)
    requires id in ById(manifests)
    ensures ById(manifests)[id].id == id && ById(manifests)[id] in manifests
  {
    if manifests[|manifests| - 1].id != id {
      ByIdKeeps(manifests[..|manifests| - 1], id);
    }
  }

  /** A built table has every endpoint under its own id. */
  lemma {:induction false} BuiltIsKeyed(t: Table, manifests: seq<Manifest>)
    requires BuiltFrom(t, manifests)
    ensures Keyed(t)
  {
    forall id | id in t ensures t[id].manifest.id == id {
      ByIdKeeps(manifests, id);
    }
  }

  lemma {:induction false} SkipsIneligible(es: seq<Entry>, need: Need, free: set<Entry>, less: Order)
    requires forall e :: e in es && e in free ==> RejectedFor(e, need).None?
    ensures FirstLeast(Eligible(es, need), free, less) == FirstLeast(es, free, less)
  {
    if |es| > 0 {
      var n := |es| - 1;
      SkipsIneligible(es[..n], need, free, less);
      var kept := Eligible(es[..n], need);
      assert (kept + [es[n]])[..|kept|] == kept;
      assert kept + [] == kept;
    }
  }

  /** Filtering and sorting pick what the single pass over the unfiltered enumeration would keep. */
  lemma {:induction false} PickIsFirstLeast(t: Table, order: seq<Id>, need: Need, less: Order)
    requires WeakOrder(less) && Orders(order, t.Keys)
    ensures Pick(t, order, need, less) == FirstLeast(InOrder(t, order), Usable(t, need), less)
  {
    hide WeakOrder;
    var es := InOrder(t, order);
    SortedFirst(Eligible(es, need), Usable(t, need), less);
    SkipsIneligible(es, need, Usable(t, need), less);
  }

  // ---------------------------------------------------------------- the proxy does not see the map's order

  ghost predicate DistinctIds(es: seq<Entry>) {
    forall i, j :: 0 <= i < j < |es| ==> es[i].manifest.id != es[j].manifest.id
  }

  lemma {:induction false} InOrderDistinct(t: Table, order: seq<Id>)
    requires Keyed(t) && Orders(order, t.Keys)
    ensures DistinctIds(InOrder(t, order))
    ensures forall e :: e in InOrder(t, order) ==> e.manifest.id in t && e == t[e.manifest.id]
    ensures forall id :: id in t ==> t[id] in InOrder(t, order)
  {
    forall id | id in t ensures t[id] in InOrder(t, order) {
      var i :| 0 <= i < |order| && order[i] == id;
      assert InOrder(t, order)[i] == t[id];
    }
  }

  lemma {:induction false} EligibleDistinct(es: seq<Entry>, need: Need)
    requires DistinctIds(es)
    ensures DistinctIds(Eligible(es, need))
  {
    if |es| > 0 {
      var n := |es| - 1;
      EligibleDistinct(es[..n], need);
      forall x | x in Eligible(es[..n], need) ensures x.manifest.id != es[n].manifest.id {
        assert x in es[..n];
      }
    }
  }

  lemma {:induction false} SortMembers(es: seq<Entry>, less: Order, x: Entry)
    ensures x in Sort(es, less) <==> x in es
  {
    if |es| > 0 {
      var front, last := es[..|es| - 1], es[|es| - 1];
      SortMembers(front, less, x);
      InsertMembers(Sort(front, less), last, less, x);
      assert es == front + [last];
    }
  }

  lemma {:induction false} SortDistinct(es: seq<Entry>, less: Order)
    requires DistinctIds(es)
    ensures DistinctIds(Sort(es, less))
  {
    if |es| > 0 {
      var front, last := es[..|es| - 1], es[|es| - 1];
      SortDistinct(front, less);
      forall x | x in Sort(front, less) ensures x.manifest.id != last.manifest.id {
        SortMembers(front, less, x);
      }
      InsertDistinct(Sort(front, less), last, less);
    }
  }

  lemma {:induction false} InsertDistinct(sorted: seq<Entry>, e: Entry, less: Order)
    requires DistinctIds(sorted) && forall x :: x in sorted ==> x.manifest.id != e.manifest.id
    ensures DistinctIds(Insert(sorted, e, less))
    decreases |sorted|
  {
    if |sorted| > 0 && less(e.manifest, sorted[|sorted| - 1].manifest) {
      var front, last := sorted[..|sorted| - 1], sorted[|sorted| - 1];
      InsertDistinct(front, e, less);
      forall x | x in Insert(front, e, less) ensures x.manifest.id != last.manifest.id {
        InsertMembers(front, e, less, x);
      }
    }
  }

  /** Two lists of the same endpoints, both sorted by the full order, are the same list. */
  lemma {:induction false} SortedAgree(s: seq<Entry>, u: seq<Entry>)
    requires Sorted(s, FullLess) && Sorted(u, FullLess) && DistinctIds(s) && DistinctIds(u)
    requires forall x :: x in s <==> x in u
    ensures s == u
  {
    if |s| == 0 {
      EmptyTogether(u, s);
    } else {
      EmptyTogether(s, u);
      HeadsAgree(s, u);
      assert s == [s[0]] + s[1..] && u == [u[0]] + u[1..];
      forall x ensures x in s[1..] <==> x in u[1..] {
        assert x in s <==> x == s[0] || x in s[1..];
        assert x in u <==> x == u[0] || x in u[1..];
      }
      SortedAgree(s[1..], u[1..]);
    }
  }

  lemma {:induction false} EmptyTogether(s: seq<Entry>, u: seq<Entry>)
    requires forall x :: x in s <==> x in u
    ensures |s| > 0 ==> |u| > 0
  {
    assert |s| > 0 ==> s[0] in s;
  }

  lemma {:induction false} HeadsAgree(s: seq<Entry>, u: seq<Entry>)
    requires Sorted(s, FullLess) && Sorted(u, FullLess) && DistinctIds(s)
    requires |s| > 0 && |u| > 0 && forall x :: x in s <==> x in u
    ensures s[0] == u[0]
  {
    assert u[0] in s && s[0] in u;
    var i :| 0 <= i < |s| && s[i] == u[0];
    var j :| 0 <= j < |u| && u[j] == s[0];
    OrdersAreWeak();
    assert i > 0 ==> !FullLess(u[0].manifest, s[0].manifest);
    assert j > 0 ==> !FullLess(s[0].manifest, u[0].manifest);
  }

  /** Filtering and sorting give one candidate list, whatever order the map is ranged over in. */
  lemma {:induction false} SameCandidates(t: Table, order: seq<Id>, other: seq<Id>, need: Need)
    requires Keyed(t) && Orders(order, t.Keys) && Orders(other, t.Keys)
    ensures Sort(Eligible(InOrder(t, order), need), FullLess) == Sort(Eligible(InOrder(t, other), need), FullLess)
  {
    hide FullLess, Sorted, WeakOrder, DistinctIds, Sort;
    var es, fs := Eligible(InOrder(t, order), need), Eligible(InOrder(t, other), need);
    CandidatesSorted(t, order, need);
    CandidatesSorted(t, other, need);
    SortedAgree(Sort(es, FullLess), Sort(fs, FullLess));
  }

  /** The candidates are the table's eligible endpoints, each once, in the full order. */
  lemma {:induction false} CandidatesSorted(t: Table, order: seq<Id>, need: Need)
    requires Keyed(t) && Orders(order, t.Keys)
    ensures var c := Sort(Eligible(InOrder(t, order), need), FullLess);
      Sorted(c, FullLess) && DistinctIds(c)
      && forall e :: e in c <==> e.manifest.id in t && t[e.manifest.id] == e && RejectedFor(e, need).None?
  {
    hide FullLess, Sorted, WeakOrder, DistinctIds, Sort;
    OrdersAreWeak();
    InOrderDistinct(t, order);
    EligibleDistinct(InOrder(t, order), need);
    var es := Eligible(InOrder(t, order), need);
    SortDistinct(es, FullLess);
    SortSorts(es, FullLess);
    forall e ensures e in Sort(es, FullLess) <==> e in es {
      SortMembers(es, FullLess, e);
    }
  }

  /** `e` is the endpoint that the full order puts before every other usable one. */
  ghost predicate LeastUsable(t: Table, e: Entry, need: Need)
    reads set id | id in t :: t[id].pool, set id | id in t :: t[id].state
  {
    && e in Usable(t, need)
    && forall id :: id in t && t[id] in Usable(t, need) && t[id] != e ==> FullLess(e.manifest, t[id].manifest)
  }

  /** The proxy picks the least usable endpoint by priority, context window and id; nothing exactly when none is
      usable. */
  lemma {:induction false} ProxyPicksLeast(t: Table, order: seq<Id>, need: Need)
    requires Keyed(t) && Orders(order, t.Keys)
    ensures Pick(t, order, need, FullLess).None? <==> Usable(t, need) == {}
    ensures forall e :: Pick(t, order, need, FullLess) == Some(e) <==> LeastUsable(t, e, need)
  {
    OrdersAreWeak();
    PickIsForemost(t, order, need, FullLess);
    hide Pick, WeakOrder, FullLess, Foremost, LeastUsable;
    var pick := Pick(t, order, need, FullLess);
    if pick.Some? {
      var k: nat :| Foremost(InOrder(t, order), k, Usable(t, need), FullLess) && pick.value == InOrder(t, order)[k];
      PickedIsLeast(t, order, k, need);
    }
    forall e ensures pick == Some(e) <==> LeastUsable(t, e, need) {
      if LeastUsable(t, e, need) {
        LeastIsUsable(t, e, need);
        LeastIsOne(t, pick.value, e, need);
      }
    }
  }

  lemma {:induction false} LeastIsUsable(t: Table, e: Entry, need: Need)
    requires LeastUsable(t, e, need)
    ensures e in Usable(t, need)
  {
  }

  lemma {:induction false} LeastIsOne(t: Table, e: Entry, f: Entry, need: Need)
    requires LeastUsable(t, e, need) && LeastUsable(t, f, need)
    ensures e == f
  {
    OrdersAreWeak();
    assert e != f ==> FullLess(e.manifest, f.manifest);
    assert e != f ==> FullLess(f.manifest, e.manifest);
  }

  lemma {:induction false} PickedIsLeast(t: Table, order: seq<Id>, k: nat, need: Need)
    requires Keyed(t) && Orders(order, t.Keys) && Foremost(InOrder(t, order), k, Usable(t, need), FullLess)
    ensures LeastUsable(t, InOrder(t, order)[k], need)
  {
    InOrderDistinct(t, order);
    OrdersAreWeak();
    var e := InOrder(t, order)[k];
    forall id | id in t && t[id] in Usable(t, need) && t[id] != e ensures FullLess(e.manifest, t[id].manifest) {
      var i :| 0 <= i < |order| && order[i] == id;
      assert InOrder(t, order)[i] == t[id];
    }
  }

  /** Either order picks the foremost usable endpoint of the enumeration, of which there is one at most; nothing
      exactly when none is usable. */
  lemma {:induction false} PickIsForemost(t: Table, order: seq<Id>, need: Need, less: Order)
    requires WeakOrder(less) && Keyed(t) && Orders(order, t.Keys)
    ensures Pick(t, order, need, less).None? <==> Usable(t, need) == {}
    ensures Pick(t, order, need, less).Some? ==>
      exists k: nat :: Foremost(InOrder(t, order), k, Usable(t, need), less)
        && Pick(t, order, need, less).value == InOrder(t, order)[k]
    ensures forall k: nat :: Foremost(InOrder(t, order), k, Usable(t, need), less) ==>
      Pick(t, order, need, less) == Some(InOrder(t, order)[k])
  {
    PickIsFirstLeast(t, order, need, less);
    var es, free := InOrder(t, order), Usable(t, need);
    hide WeakOrder, Pick;
    var k := FirstLeastIsForemost(es, free, less);
    InOrderDistinct(t, order);
    forall l: nat | Foremost(es, l, free, less) ensures Pick(t, order, need, less) == Some(es[l]) {
      assert es[l] in es;
      ForemostIsOne(es, k, l, free, less);
    }
  }

  // ---------------------------------------------------------------- Select against the proxy

  /** No other usable endpoint has the priority and the context window of `e`. */
  ghost predicate Untied(t: Table, e: Entry, need: Need)
    reads set id | id in t :: t[id].pool, set id | id in t :: t[id].state
  {
    forall id :: id in t && t[id] in Usable(t, need) && SamePair(t[id].manifest, e.manifest) ==> t[id] == e
  }

  /** From one state of the table and the pools, `Select` and the proxy refuse together, and otherwise agree on
      priority and context window, and on the endpoint where nothing ties. */
  lemma {:induction false} SelectAgrees(t: Table, order: seq<Id>, other: seq<Id>, need: Need)
    requires Keyed(t) && Orders(order, t.Keys) && Orders(other, t.Keys)
    ensures var proxy, select := Pick(t, order, need, FullLess), Pick(t, other, need, PairLess);
      && (proxy.None? <==> select.None?)
      && (proxy.Some? ==> SamePair(proxy.value.manifest, select.value.manifest))
      && (proxy.Some? && Untied(t, proxy.value, need) ==> select == proxy)
  {
    hide Pick, WeakOrder, Foremost, LeastUsable, FullLess, Keyed;
    SelectPicks(t, other, need);
    ProxyPicksLeast(t, order, need);
    var proxy, select := Pick(t, order, need, FullLess), Pick(t, other, need, PairLess);
    if proxy.Some? {
      assert LeastUsable(t, proxy.value, need);
      LeastAgainstPick(t, other, proxy.value, need);
    }
  }

  lemma {:induction false} SelectPicks(t: Table, order: seq<Id>, need: Need)
    requires Keyed(t) && Orders(order, t.Keys)
    ensures Pick(t, order, need, PairLess).None? <==> Usable(t, need) == {}
  {
    OrdersAreWeak();
    PickIsForemost(t, order, need, PairLess);
  }

  lemma {:induction false} LeastAgainstPick(t: Table, order: seq<Id>, e: Entry, need: Need)
    requires Keyed(t) && Orders(order, t.Keys) && LeastUsable(t, e, need)
    ensures var pick := Pick(t, order, need, PairLess);
      && pick.Some? && SamePair(e.manifest, pick.value.manifest)
      && pick.value.manifest.id in t && t[pick.value.manifest.id] == pick.value && pick.value in Usable(t, need)
  {
    OrdersAreWeak();
    PickIsForemost(t, order, need, PairLess);
    var pick := Pick(t, order, need, PairLess);
    hide Pick, WeakOrder, Foremost, FullLess;
    var k: nat :| Foremost(InOrder(t, order), k, Usable(t, need), PairLess) && pick.value == InOrder(t, order)[k];
    LeastAgainstForemost(t, order, k, e, need);
  }

  lemma {:induction false} LeastAgainstForemost(t: Table, order: seq<Id>, k: nat, e: Entry, need: Need)
    requires Keyed(t) && Orders(order, t.Keys) && LeastUsable(t, e, need)
    requires Foremost(InOrder(t, order), k, Usable(t, need), PairLess)
    ensures var f := InOrder(t, order)[k];
      SamePair(e.manifest, f.manifest) && f.manifest.id in t && t[f.manifest.id] == f && f in Usable(t, need)
  {
    InOrderDistinct(t, order);
    var es := InOrder(t, order);
    var l :| 0 <= l < |order| && order[l] == e.manifest.id;
    assert es[l] == e && es[k] in es;
    assert l != k ==> !PairLess(e.manifest, es[k].manifest);
    assert l != k ==> FullLess(e.manifest, es[k].manifest);
  }

  /** `Select` has no tiebreak by id: it picks the proxy's endpoint however the map is ranged over exactly when no
      other usable endpoint ties with it. */
  lemma {:induction false} SelectIsStableExactlyWhenUntied(t: Table, order: seq<Id>, need: Need)
    requires Keyed(t) && Orders(order, t.Keys) && Usable(t, need) != {}
    ensures var proxy := Pick(t, order, need, FullLess);
      proxy.Some? && (Untied(t, proxy.value, need)
        <==> forall other :: Orders(other, t.Keys) ==> Pick(t, other, need, PairLess) == proxy)
  {
    ProxyPicksLeast(t, order, need);
    var proxy := Pick(t, order, need, FullLess);
    if Untied(t, proxy.value, need) {
      forall other | Orders(other, t.Keys) ensures Pick(t, other, need, PairLess) == proxy {
        SelectAgrees(t, order, other, need);
      }
    } else {
      var id :| id in t && t[id] in Usable(t, need) && SamePair(t[id].manifest, proxy.value.manifest)
        && t[id] != proxy.value;
      var tied := FrontedBy(t, order, id, need);
      assert Pick(t, tied, need, PairLess) != proxy;
    }
  }

  /** A usable endpoint that nothing precedes by the pair is what `Select` picks when the map yields it first. */
  lemma {:induction false} FrontedBy(t: Table, order: seq<Id>, id: Id, need: Need) returns (other: seq<Id>)
    requires Keyed(t) && Orders(order, t.Keys) && id in t && t[id] in Usable(t, need)
    requires exists e :: LeastUsable(t, e, need) && SamePair(t[id].manifest, e.manifest)
    ensures Orders(other, t.Keys) && Pick(t, other, need, PairLess) == Some(t[id])
  {
    var i :| 0 <= i < |order| && order[i] == id;
    other := [id] + (order[..i] + order[i + 1..]);
    MovedToFront(order, t.Keys, i);
    OrdersAreWeak();
    PickIsForemost(t, other, need, PairLess);
    FirstIsForemost(t, other, need);
  }

  lemma {:induction false} FirstIsForemost(t: Table, order: seq<Id>, need: Need)
    requires |order| > 0 && Orders(order, t.Keys) && t[order[0]] in Usable(t, need)
    requires exists e :: LeastUsable(t, e, need) && SamePair(t[order[0]].manifest, e.manifest)
    ensures Foremost(InOrder(t, order), 0, Usable(t, need), PairLess)
  {
  }

  lemma {:induction false} MovedToFront(order: seq<Id>, keys: set<Id>, i: nat)
    requires Orders(order, keys) && i < |order|
    ensures Orders([order[i]] + (order[..i] + order[i + 1..]), keys)
  {
    var other := [order[i]] + (order[..i] + order[i + 1..]);
    assert order == order[..i] + [order[i]] + order[i + 1..];
    forall id ensures id in other <==> id in keys {
      assert id in order <==> id in order[..i] || id == order[i] || id in order[i + 1..];
    }
  }
}
