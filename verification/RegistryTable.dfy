/** The routing table of `router/internal/registry/table.go`, and the rescan of `.../discovery/worker.go` that
    swaps it. */
module RegistryTable {
  import P = Pool

  type Id = string

  datatype Manifest = Manifest(
    id: Id, enabled: bool, vision: bool, tools: bool, streaming: bool, maxContext: int, priority: int,
    staticCapacity: int)

  /** The live state of an endpoint, outside the immutable manifest. */
  class Endpoint {
    var enabled: bool
    var healthy: bool
    var healthyNow: bool
    var draining: bool
    var failures: int
    var successes: int

    constructor (enabled: bool)
      ensures this.enabled == enabled && healthy && !healthyNow && !draining && failures == 0 && successes == 0
    {
      this.enabled := enabled;
      healthy := true;
      healthyNow := false;
      draining := false;
      failures := 0;
      successes := 0;
    }
  }

  datatype Entry = Entry(manifest: Manifest, pool: P.Pool, state: Endpoint)

  type Table = map<Id, Entry>

  /** The manifests by id; of several with one id the last counts. */
  function ById(manifests: seq<Manifest>): map<Id, Manifest> {
    if |manifests| == 0 then map[]
    else ById(manifests[..|manifests| - 1])[manifests[|manifests| - 1].id := manifests[|manifests| - 1]]
  }

  /** The manifest at `k` is the last one of the list that bears the id. */
  predicate LastWith(manifests: seq<Manifest>, id: Id, k: int) {
    0 <= k < |manifests| && manifests[k].id == id && forall j :: k < j < |manifests| ==> manifests[j].id != id
  }

  /** Every id of the list is there, with the last manifest that bears it. */
  lemma {:induction false} LastManifestCounts(manifests: seq<Manifest>, id: Id)
    ensures id in ById(manifests) <==> exists k :: 0 <= k < |manifests| && manifests[k].id == id
    ensures id in ById(manifests) ==> exists k :: LastWith(manifests, id, k) && ById(manifests)[id] == manifests[k]
    decreases |manifests|
  {
    if |manifests| > 0 {
      var n := |manifests| - 1;
      var front := manifests[..n];
      LastManifestCounts(front, id);
      if manifests[n].id == id {
        assert LastWith(manifests, id, n);
      } else if id in ById(front) {
        var k :| LastWith(front, id, k) && ById(front)[id] == front[k];
        assert LastWith(manifests, id, k) && manifests[k] == front[k];
      } else {
        assert forall k :: 0 <= k < n ==> front[k] == manifests[k];
      }
    }
  }

  /** An endpoint as a new table has it: an empty pool of its static capacity, healthy, not draining. */
  ghost predicate Pristine(e: Entry)
    reads e.pool, e.state
  {
    && e.pool.Value() == P.Account(if e.manifest.staticCapacity < 1 then 1 else e.manifest.staticCapacity, 0, map[])
    && e.state.enabled == e.manifest.enabled && e.state.healthy && !e.state.draining
    && e.state.failures == 0 && e.state.successes == 0
  }

  /** No two endpoints share a pool or a state. */
  ghost predicate Separate(t: Table) {
    forall id, other :: id in t && other in t && id != other ==>
      t[id].pool != t[other].pool && t[id].state != t[other].state
  }

  /** The table has just these endpoints, each as new. */
  ghost predicate BuiltFrom(t: Table, manifests: seq<Manifest>)
    reads set id | id in t :: t[id].pool, set id | id in t :: t[id].state
  {
    && t.Keys == ById(manifests).Keys
    && (forall id :: id in t ==> t[id].manifest == ById(manifests)[id])
    && (forall id :: id in t ==> Pristine(t[id]))
    && Separate(t)
  }

  method NewEntry(m: Manifest) returns (e: Entry)
    ensures e.manifest == m && Pristine(e) && fresh(e.pool) && fresh(e.state)
  {
    var pool := new P.Pool(m.staticCapacity);
    var state := new Endpoint(m.enabled);
    e := Entry(m, pool, state);
  }

  lemma {:induction false} OneMoreById(manifests: seq<Manifest>, i: nat)
    requires i < |manifests|
    ensures ById(manifests[..i + 1]) == ById(manifests[..i])[manifests[i].id := manifests[i]]
  {
    assert manifests[..i + 1][..i] == manifests[..i];
  }

  lemma {:induction false} SeparateGrows(t: Table, id: Id, e: Entry)
    requires Separate(t) && forall other :: other in t ==> t[other].pool != e.pool && t[other].state != e.state
    ensures Separate(t[id := e])
  {
  }

  /** Builds a table from scratch: every endpoint gets a pool and a state of its own, both new, whatever an
      earlier table holds for the same id. */
  method NewTable(manifests: seq<Manifest>) returns (t: Table)
    ensures BuiltFrom(t, manifests)
    ensures forall id :: id in t ==> fresh(t[id].pool) && fresh(t[id].state)
  {
    t := map[];
    assert manifests[..0] == [];
    for i := 0 to |manifests|
      invariant t.Keys == ById(manifests[..i]).Keys
      invariant forall id :: id in t ==> t[id].manifest == ById(manifests[..i])[id]
      invariant forall id :: id in t ==> Pristine(t[id])
      invariant forall id :: id in t ==> fresh(t[id].pool) && fresh(t[id].state)
      invariant Separate(t)
    {
      OneMoreById(manifests, i);
      var e := NewEntry(manifests[i]);
      assert forall id :: id in t ==> Pristine(t[id]);
      SeparateGrows(t, manifests[i].id, e);
      t := t[manifests[i].id := e];
    }
    assert manifests[..|manifests|] == manifests;
  }

  /** The keys in some order, each once. */
  ghost predicate Orders(order: seq<Id>, keys: set<Id>) {
    && (forall id :: id in order <==> id in keys)
    && forall i, j :: 0 <= i < j < |order| ==> order[i] != order[j]
  }

  function InOrder(t: Table, order: seq<Id>): (entries: seq<Entry>)
    requires forall id :: id in order ==> id in t
    ensures |entries| == |order| && forall i :: 0 <= i < |order| ==> entries[i] == t[order[i]]
  {
    seq(|order|, i requires 0 <= i < |order| => t[order[i]])
  }

  /** The entries are those of the table. */
  ghost predicate Lists(entries: seq<Entry>, t: Table) {
    (forall id :: id in t ==> t[id] in entries)
    && forall i :: 0 <= i < |entries| ==> InTable(entries[i], t)
  }

  ghost predicate InTable(e: Entry, t: Table) {
    exists id :: id in t && t[id] == e
  }

  /** All entries, in the order that ranging over the Go map happens to take: each once, nothing more is known. */
  method All(t: Table) returns (entries: seq<Entry>, ghost order: seq<Id>)
    ensures Orders(order, t.Keys) && entries == InOrder(t, order)
    ensures Lists(entries, t)
  {
    hide Lists;
    entries, order := [], [];
    var todo := t.Keys;
    while todo != {}
      invariant todo <= t.Keys
      invariant Orders(order, t.Keys - todo) && (forall id :: id in order ==> id in t)
      invariant entries == InOrder(t, order)
      decreases |todo|
    {
      var id :| id in todo;
      OrderOneMore(order, t.Keys - todo, id);
      assert t.Keys - (todo - {id}) == (t.Keys - todo) + {id};
      todo := todo - {id};
      entries, order := entries + [t[id]], order + [id];
    }
    assert t.Keys - {} == t.Keys;
    OrderLists(t, order);
  }

  lemma {:induction false} OrderLists(t: Table, order: seq<Id>)
    requires Orders(order, t.Keys)
    ensures Lists(InOrder(t, order), t)
  {
    var entries := InOrder(t, order);
    forall id | id in t ensures t[id] in entries {
      var i :| 0 <= i < |order| && order[i] == id;
      assert entries[i] == t[id];
    }
    forall i | 0 <= i < |entries| ensures InTable(entries[i], t) {
      assert order[i] in t && t[order[i]] == entries[i];
    }
  }

  lemma {:induction false} OrderOneMore(order: seq<Id>, keys: set<Id>, id: Id)
    requires Orders(order, keys) && id !in keys
    ensures Orders(order + [id], keys + {id})
  {
    assert order == [] + order;
  }

  /** The holder of the current table: readers load it, the control plane replaces it whole. */
  class Registry {
    var table: Table

    constructor (seeds: seq<Manifest>)
      ensures BuiltFrom(table, seeds)
    {
      table := map[];
      new;
      table := NewTable(seeds);
    }

    method View() returns (t: Table)
      ensures t == table
    {
      t := table;
    }

    method Set(t: Table)
      modifies this
      ensures table == t
    {
      table := t;
    }

    /** Rebuilds the table from the configured endpoints and those discovered, without the ones that break the
        port contract.  Requests still running keep the pools of the old table: the new ones start empty and
        healthy, so the in-flight counts the comment in the source means to carry over are not. */
    method Rescan(configured: seq<Manifest>, discovered: seq<Manifest>, enforce: bool, allowed: Manifest -> bool)
      modifies this
      ensures BuiltFrom(table, if enforce then Allowed(configured + discovered, allowed) else configured + discovered)
      ensures forall id :: id in table ==> fresh(table[id].pool) && fresh(table[id].state)
    {
      var seeds := configured + discovered;
      if enforce {
        var filtered: seq<Manifest> := [];
        assert seeds[..0] == [];
        for i := 0 to |seeds|
          invariant filtered == Allowed(seeds[..i], allowed)
        {
          assert seeds[..i + 1][..i] == seeds[..i];
          if !allowed(seeds[i]) {
            continue;
          }
          filtered := filtered + [seeds[i]];
        }
        assert seeds[..|seeds|] == seeds;
        seeds := filtered;
      }
      var t := NewTable(seeds);
      Set(t);
    }
  }

  function Allowed(manifests: seq<Manifest>, allowed: Manifest -> bool): seq<Manifest> {
    if |manifests| == 0 then []
    else
      var n := |manifests| - 1;
      Allowed(manifests[..n], allowed) + if allowed(manifests[n]) then [manifests[n]] else []
  }

  /** Enforcing the port contract keeps every manifest that is allowed, as often as it is there, and no other. */
  lemma {:induction false} KeepsTheAllowed(manifests: seq<Manifest>, allowed: Manifest -> bool, m: Manifest)
    ensures multiset(Allowed(manifests, allowed))[m] == if allowed(m) then multiset(manifests)[m] else 0
    decreases |manifests|
  {
    if |manifests| > 0 {
      var n := |manifests| - 1;
      KeepsTheAllowed(manifests[..n], allowed, m);
      assert manifests == manifests[..n] + [manifests[n]];
    }
  }

  /** The manifest at `k` is the last allowed one that bears the id. */
  predicate LastAllowed(manifests: seq<Manifest>, allowed: Manifest -> bool, id: Id, k: int) {
    && 0 <= k < |manifests| && allowed(manifests[k]) && manifests[k].id == id
    && forall j :: k < j < |manifests| && allowed(manifests[j]) ==> manifests[j].id != id
  }

  /** So after a rescan that enforces it the table has an endpoint exactly if an allowed manifest bears its id, with the
      last one of those. */
  lemma {:induction false} TableHasTheAllowed(manifests: seq<Manifest>, allowed: Manifest -> bool, id: Id)
    ensures id in ById(Allowed(manifests, allowed)) <==> exists m :: m in manifests && allowed(m) && m.id == id
    ensures id in ById(Allowed(manifests, allowed)) ==>
      exists k :: LastAllowed(manifests, allowed, id, k) && ById(Allowed(manifests, allowed))[id] == manifests[k]
    decreases |manifests|
  {
    if |manifests| > 0 {
      var n := |manifests| - 1;
      var front := manifests[..n];
      TableHasTheAllowed(front, allowed, id);
      OneMoreAllowed(manifests, allowed);
      assert manifests == front + [manifests[n]];
      hide ById, Allowed;
      if allowed(manifests[n]) && manifests[n].id == id {
        assert LastAllowed(manifests, allowed, id, n);
      } else if id in ById(Allowed(front, allowed)) {
        var k :| LastAllowed(front, allowed, id, k) && ById(Allowed(front, allowed))[id] == front[k];
        assert LastAllowed(manifests, allowed, id, k) && manifests[k] == front[k];
      }
    }
  }

  lemma {:induction false} OneMoreAllowed(manifests: seq<Manifest>, allowed: Manifest -> bool)
    requires |manifests| > 0
    ensures var m, before := manifests[|manifests| - 1], ById(Allowed(manifests[..|manifests| - 1], allowed));
      ById(Allowed(manifests, allowed)) == if allowed(m) then before[m.id := m] else before
  {
    var m, kept := manifests[|manifests| - 1], Allowed(manifests[..|manifests| - 1], allowed);
    assert (kept + [m])[..|kept|] == kept && kept + [] == kept;
  }
}
