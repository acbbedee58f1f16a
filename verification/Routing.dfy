/** Choosing an endpoint: the filter, sort and reserve-first-free loop of `router/internal/proxy/proxy.go` and
    `.../proxy/util.go`, and `Select` of `.../routing/classify.go`, which does the same with a weaker order. */
module Routing {
  import opened RegistryTable

  datatype Option<+T> = None | Some(value: T)

  /** What a request needs; `context` is its token budget. */
  datatype Need = Need(images: bool, tools: bool, streaming: bool, context: int)

  /** The codes in a candidate log. */
  datatype Reason =
    | VisionRequired | ToolsRequired | StreamingRequired | ContextTooSmall
    | EndpointDisabled | EndpointUnhealthy | EndpointDraining | CapacityFull | Selected

  /** Why an endpoint is out of the question, the first reason that applies. */
  function RejectedFor(e: Entry, need: Need): Option<Reason>
    reads e.state
  {
    if need.images && !e.manifest.vision then Some(VisionRequired)
    else if need.tools && !e.manifest.tools then Some(ToolsRequired)
    else if need.streaming && !e.manifest.streaming then Some(StreamingRequired)
    else if e.manifest.maxContext < need.context then Some(ContextTooSmall)
    else if !e.state.enabled then Some(EndpointDisabled)
    else if !e.state.healthy then Some(EndpointUnhealthy)
    else if e.state.draining then Some(EndpointDraining)
    else None
  }

  /** What the gates come to: an endpoint passes when it can do what is asked, has the context, and is in service; and
      the code of one that does not names what is wrong with it, nothing listed before that being wrong. */
  lemma {:induction false} TurnedAwayForCause(e: Entry, need: Need)
    ensures var m, st, reason := e.manifest, e.state, RejectedFor(e, need);
      var able := (need.images ==> m.vision) && (need.tools ==> m.tools) && (need.streaming ==> m.streaming);
      && (reason.None? <==> able && need.context <= m.maxContext && st.enabled && st.healthy && !st.draining)
      && (reason == Some(VisionRequired) <==> need.images && !m.vision)
      && (reason == Some(ToolsRequired) <==> need.tools && !m.tools && (need.images ==> m.vision))
      && (reason == Some(StreamingRequired) <==>
            need.streaming && !m.streaming && (need.images ==> m.vision) && (need.tools ==> m.tools))
      && (reason == Some(ContextTooSmall) <==> able && m.maxContext < need.context)
      && (reason == Some(EndpointDisabled) <==> able && need.context <= m.maxContext && !st.enabled)
      && (reason == Some(EndpointUnhealthy) <==>
            able && need.context <= m.maxContext && st.enabled && !st.healthy)
      && (reason == Some(EndpointDraining) <==>
            able && need.context <= m.maxContext && st.enabled && st.healthy && st.draining)
  {
  }

  /** One need asks for no more than another. */
  predicate AsksNoMore(smaller: Need, need: Need) {
    && (smaller.images ==> need.images) && (smaller.tools ==> need.tools) && (smaller.streaming ==> need.streaming)
    && smaller.context <= need.context
  }

  /** An endpoint that may serve a need may serve every smaller one. */
  lemma {:induction false} SmallerNeedPasses(e: Entry, smaller: Need, need: Need)
    requires AsksNoMore(smaller, need) && RejectedFor(e, need).None?
    ensures RejectedFor(e, smaller).None?
  {
  }

  function Eligible(entries: seq<Entry>, need: Need): (kept: seq<Entry>)
    reads set e | e in entries :: e.state
    ensures forall e :: e in kept ==> e in entries && RejectedFor(e, need).None?
    ensures forall e :: e in entries && RejectedFor(e, need).None? ==> e in kept
  {
    if |entries| == 0 then []
    else
      var n := |entries| - 1;
      assert forall e :: e in entries ==> e in entries[..n] || e == entries[n];
      Eligible(entries[..n], need) + if RejectedFor(entries[n], need).None? then [entries[n]] else []
  }

  /** The candidate log: the ids turned away, and why. */
  function Rejections(entries: seq<Entry>, need: Need): seq<(Id, Reason)>
    reads set e | e in entries :: e.state
  {
    if |entries| == 0 then []
    else
      var n := |entries| - 1;
      var reason := RejectedFor(entries[n], need);
      Rejections(entries[..n], need) + if reason.Some? then [(entries[n].manifest.id, reason.value)] else []
  }

  predicate LogLine(e: Entry, need: Need, line: (Id, Reason))
    reads e.state
  {
    RejectedFor(e, need).Some? && line == (e.manifest.id, RejectedFor(e, need).value)
  }

  /** Every entry is kept or has one line in the log. */
  lemma {:induction false} KeptOrLogged(entries: seq<Entry>, need: Need)
    ensures |Eligible(entries, need)| + |Rejections(entries, need)| == |entries|
    decreases |entries|
  {
    if |entries| > 0 {
      KeptOrLogged(entries[..|entries| - 1], need);
      hide RejectedFor;
    }
  }

  /** The lines are those of entries that failed a gate: the id, and the gate. */
  lemma {:induction false} LoggedExactly(entries: seq<Entry>, need: Need, line: (Id, Reason))
    ensures line in Rejections(entries, need) <==> exists i :: 0 <= i < |entries| && LogLine(entries[i], need, line)
    decreases |entries|
  {
    if |entries| > 0 {
      var n := |entries| - 1;
      var front := entries[..n];
      LoggedExactly(front, need, line);
      assert line in Rejections(entries, need) <==> line in Rejections(front, need) || LogLine(entries[n], need, line);
      hide RejectedFor, LogLine, Rejections;
      assert forall i :: 0 <= i < n ==> front[i] == entries[i];
    }
  }

  /** The lines come in the order of their entries. */
  lemma {:induction false} LoggedInOrder(earlier: seq<Entry>, later: seq<Entry>, need: Need)
    ensures Rejections(earlier + later, need) == Rejections(earlier, need) + Rejections(later, need)
    decreases |later|
  {
    if |later| == 0 {
      assert earlier + later == earlier;
    } else {
      var n := |later| - 1;
      assert (earlier + later)[..|earlier| + n] == earlier + later[..n];
      LoggedInOrder(earlier, later[..n], need);
      hide RejectedFor;
    }
  }

  // ---------------------------------------------------------------- orders

  /** Go's order on strings. */
  predicate StringLess(a: string, b: string) {
    |b| > 0 && (|a| == 0 || a[0] < b[0] || (a[0] == b[0] && StringLess(a[1..], b[1..])))
  }

  /** Priority, then the smaller context window. */
  predicate PairLess(a: Manifest, b: Manifest) {
    a.priority < b.priority || (a.priority == b.priority && a.maxContext < b.maxContext)
  }

  /** The proxy's order: ties of the pair are broken by id. */
  predicate FullLess(a: Manifest, b: Manifest) {
    PairLess(a, b) || (SamePair(a, b) && StringLess(a.id, b.id))
  }

  predicate SamePair(a: Manifest, b: Manifest) {
    a.priority == b.priority && a.maxContext == b.maxContext
  }

  /** Go's order on strings goes by the first place where they differ; a proper prefix comes first. */
  lemma {:induction false} StringLessAt(a: string, b: string, k: nat)
    requires k <= |a| && k <= |b| && a[..k] == b[..k]
    requires k == |a| || k == |b| || a[k] != b[k]
    ensures StringLess(a, b) <==> k < |b| && (k == |a| || a[k] < b[k])
    decreases k
  {
    if k > 0 {
      assert a[0] == a[..k][0] == b[..k][0] == b[0];
      assert a[1..][..k - 1] == a[..k][1..] == b[..k][1..] == b[1..][..k - 1];
      StringLessAt(a[1..], b[1..], k - 1);
    }
  }

  /** The smaller priority number comes first, then the smaller context window, then the smaller id. */
  lemma {:induction false} OrdersPreferSmaller(a: Manifest, b: Manifest)
    ensures FullLess(a, b) <==>
      a.priority < b.priority || (a.priority == b.priority && a.maxContext < b.maxContext)
      || (a.priority == b.priority && a.maxContext == b.maxContext && StringLess(a.id, b.id))
    ensures PairLess(a, b) ==> FullLess(a, b) && (a.priority, a.maxContext) != (b.priority, b.maxContext)
    ensures FullLess(a, b) && !PairLess(a, b) ==> (a.priority, a.maxContext) == (b.priority, b.maxContext)
  {
  }

  type Order = (Manifest, Manifest) -> bool

  /** A strict order whose ties are transitive. */
  ghost predicate WeakOrder(less: Order) {
    && (forall a, b :: less(a, b) ==> !less(b, a))
    && (forall a, b, c :: !less(b, a) && !less(c, b) ==> !less(c, a))
  }

  lemma {:induction false} StringLessOrders(a: string, b: string, c: string)
    ensures StringLess(a, b) ==> !StringLess(b, a)
    ensures !StringLess(b, a) && !StringLess(c, b) ==> !StringLess(c, a)
    ensures a == b || StringLess(a, b) || StringLess(b, a)
    decreases |a|
  {
    if |a| > 0 && |b| > 0 && |c| > 0 {
      StringLessOrders(a[1..], b[1..], c[1..]);
    } else if |a| > 0 && |b| > 0 {
      StringLessOrders(a[1..], b[1..], []);
    }
    if |a| > 0 && |b| > 0 && a[0] == b[0] && a[1..] == b[1..] {
      assert a == [a[0]] + a[1..] && b == [b[0]] + b[1..];
    }
  }

  lemma {:induction false} OrdersAreWeak()
    ensures WeakOrder(PairLess) && WeakOrder(FullLess)
    ensures forall a: Manifest, b: Manifest :: a.id != b.id ==> FullLess(a, b) || FullLess(b, a)
  {
    forall a: Manifest, b: Manifest, c: Manifest
      ensures StringLess(a.id, b.id) ==> !StringLess(b.id, a.id)
      ensures !StringLess(b.id, a.id) && !StringLess(c.id, b.id) ==> !StringLess(c.id, a.id)
      ensures a.id == b.id || StringLess(a.id, b.id) || StringLess(b.id, a.id)
    {
      StringLessOrders(a.id, b.id, c.id);
    }
  }

  // ---------------------------------------------------------------- the stable sort

  /** A stable sort by `less`. */
  function Sort(entries: seq<Entry>, less: Order): (sorted: seq<Entry>)
    ensures |sorted| == |entries|
  {
    if |entries| == 0 then [] else Insert(Sort(entries[..|entries| - 1], less), entries[|entries| - 1], less)
  }

  function Insert(sorted: seq<Entry>, e: Entry, less: Order): (longer: seq<Entry>)
    ensures |longer| == |sorted| + 1
  {
    if |sorted| > 0 && less(e.manifest, sorted[|sorted| - 1].manifest) then
      Insert(sorted[..|sorted| - 1], e, less) + [sorted[|sorted| - 1]]
    else sorted + [e]
  }

  ghost predicate Sorted(entries: seq<Entry>, less: Order) {
    forall i, j :: 0 <= i < j < |entries| ==> !less(entries[j].manifest, entries[i].manifest)
  }

  /** Insertion adds the element and nothing else. */
  lemma {:induction false} InsertAdds(sorted: seq<Entry>, e: Entry, less: Order)
    ensures multiset(Insert(sorted, e, less)) == multiset(sorted) + multiset{e}
    decreases |sorted|
  {
    if |sorted| > 0 && less(e.manifest, sorted[|sorted| - 1].manifest) {
      InsertAdds(sorted[..|sorted| - 1], e, less);
      assert sorted == sorted[..|sorted| - 1] + [sorted[|sorted| - 1]];
    }
  }

  lemma {:induction false} InsertMembers(sorted: seq<Entry>, e: Entry, less: Order, x: Entry)
    ensures x in Insert(sorted, e, less) <==> x == e || x in sorted
  {
    InsertAdds(sorted, e, less);
    assert x in Insert(sorted, e, less) <==> x in multiset(Insert(sorted, e, less));
    assert x in sorted <==> x in multiset(sorted);
  }

  lemma {:induction false} InsertSorts(sorted: seq<Entry>, e: Entry, less: Order)
    requires WeakOrder(less) && Sorted(sorted, less)
    ensures Sorted(Insert(sorted, e, less), less)
    decreases |sorted|
  {
    if |sorted| > 0 && less(e.manifest, sorted[|sorted| - 1].manifest) {
      var front, last := sorted[..|sorted| - 1], sorted[|sorted| - 1];
      InsertSorts(front, e, less);
      forall x | x in Insert(front, e, less) ensures !less(last.manifest, x.manifest) {
        InsertMembers(front, e, less, x);
      }
      SortedPush(Insert(front, e, less), last, less);
    } else {
      forall x | x in sorted ensures !less(e.manifest, x.manifest) {
        NotBefore(sorted, x, e, less);
      }
      SortedPush(sorted, e, less);
    }
  }

  lemma {:induction false} SortedPush(sorted: seq<Entry>, e: Entry, less: Order)
    requires Sorted(sorted, less) && forall x :: x in sorted ==> !less(e.manifest, x.manifest)
    ensures Sorted(sorted + [e], less)
  {
  }

  /** What is not before the last is before none. */
  lemma {:induction false} NotBefore(sorted: seq<Entry>, x: Entry, e: Entry, less: Order)
    requires WeakOrder(less) && Sorted(sorted, less) && x in sorted
    requires !less(e.manifest, sorted[|sorted| - 1].manifest)
    ensures !less(e.manifest, x.manifest)
  {
    var i :| 0 <= i < |sorted| && sorted[i] == x;
    if i < |sorted| - 1 {
      assert !less(sorted[|sorted| - 1].manifest, x.manifest);
    }
  }

  lemma {:induction false} SortSorts(entries: seq<Entry>, less: Order)
    requires WeakOrder(less)
    ensures Sorted(Sort(entries, less), less) && multiset(Sort(entries, less)) == multiset(entries)
    decreases |entries|
  {
    hide WeakOrder, Sorted;
    if |entries| > 0 {
      var front, last := entries[..|entries| - 1], entries[|entries| - 1];
      assert entries == front + [last];
      SortSorts(front, less);
      InsertSorts(Sort(front, less), last, less);
      InsertAdds(Sort(front, less), last, less);
    } else {
      assert Sorted([], less) by { EmptyIsSorted(less); }
    }
  }

  lemma {:induction false} EmptyIsSorted(less: Order)
    ensures Sorted([], less)
  {
  }

  /** The elements while `e` has sunk to position `j`. */
  function Sunk(sorted: seq<Entry>, e: Entry, j: nat): (es: seq<Entry>)
    requires j <= |sorted|
    ensures |es| == |sorted| + 1 && es[j] == e && (j > 0 ==> es[j - 1] == sorted[j - 1])
  {
    sorted[..j] + [e] + sorted[j..]
  }

  lemma {:induction false} SinkOne(sorted: seq<Entry>, e: Entry, j: nat, less: Order)
    requires 0 < j <= |sorted| && less(e.manifest, sorted[j - 1].manifest)
    ensures Sunk(sorted, e, j)[j := sorted[j - 1]][j - 1 := e] == Sunk(sorted, e, j - 1)
    ensures Insert(sorted[..j], e, less) + sorted[j..] == Insert(sorted[..j - 1], e, less) + sorted[j - 1..]
  {
    assert sorted[..j][..j - 1] == sorted[..j - 1];
    assert sorted[j - 1..] == [sorted[j - 1]] + sorted[j..];
  }

  lemma {:induction false} SinkEnds(sorted: seq<Entry>, e: Entry, j: nat, less: Order)
    requires j <= |sorted| && (j > 0 ==> !less(e.manifest, sorted[j - 1].manifest))
    ensures Insert(sorted[..j], e, less) + sorted[j..] == Sunk(sorted, e, j)
  {
  }

  lemma {:induction false} SinkBegins(sorted: seq<Entry>, e: Entry, less: Order)
    ensures Sunk(sorted, e, |sorted|) == sorted + [e]
    ensures Insert(sorted[..|sorted|], e, less) + sorted[|sorted|..] == Insert(sorted, e, less)
  {
    assert sorted[..|sorted|] == sorted && sorted[|sorted|..] == [];
  }

  /** Moves `es[i]` down to where `less` puts it among the sorted ones before it. */
  method SiftDown(es: array<Entry>, i: nat, less: Order)
    requires i < es.Length
    modifies es
    ensures es[..] == Insert(old(es[..i]), old(es[i]), less) + old(es[i + 1..])
  {
    hide Sunk, Insert;
    ghost var s, e, rest := es[..i], es[i], es[i + 1..];
    var j := i;
    SinkBegins(s, e, less);
    while j > 0 && less(es[j].manifest, es[j - 1].manifest)
      invariant 0 <= j <= i
      invariant es[..i + 1] == Sunk(s, e, j) && es[i + 1..] == rest
      invariant Insert(s, e, less) == Insert(s[..j], e, less) + s[j..]
    {
      assert es[j] == es[..i + 1][j] && es[j - 1] == es[..i + 1][j - 1];
      SinkOne(s, e, j, less);
      es[j], es[j - 1] := es[j - 1], es[j];
      j := j - 1;
    }
    assert es[j] == es[..i + 1][j] && (j > 0 ==> es[j - 1] == es[..i + 1][j - 1]);
    SinkEnds(s, e, j, less);
    assert es[..] == es[..i + 1] + es[i + 1..];
  }

  /** When the first `i` are sorted already, sinking the next one sorts one more. */
  lemma {:induction false} SortOneMore(before: seq<Entry>, es: seq<Entry>, i: nat, less: Order)
    requires i < |before| && es == Sort(before[..i], less) + before[i..]
    ensures Insert(es[..i], es[i], less) + es[i + 1..] == Sort(before[..i + 1], less) + before[i + 1..]
  {
    assert before[..i + 1][..i] == before[..i];
    assert es[..i] == Sort(before[..i], less) && es[i] == before[i] && es[i + 1..] == before[i + 1..];
    hide Insert;
  }

  /** `sort.SliceStable`, in place. */
  method SliceStable(es: array<Entry>, less: Order)
    modifies es
    ensures es[..] == Sort(old(es[..]), less)
  {
    hide Sort, Insert;
    ghost var before, all := es[..], es[..];
    SortNone(before, less);
    for i := 0 to es.Length
      invariant es[..] == all == Sort(before[..i], less) + before[i..]
    {
      SortOneMore(before, all, i, less);
      assert es[..i] == all[..i] && es[i + 1..] == all[i + 1..];
      SiftDown(es, i, less);
      all := es[..];
    }
    SortDone(before, less);
  }

  lemma {:induction false} SortNone(entries: seq<Entry>, less: Order)
    ensures Sort(entries[..0], less) + entries[0..] == entries
  {
  }

  lemma {:induction false} SortDone(entries: seq<Entry>, less: Order)
    ensures Sort(entries[..|entries|], less) + entries[|entries|..] == Sort(entries, less)
  {
    assert entries[..|entries|] == entries && entries[|entries|..] == [];
    hide Sort;
  }
}
