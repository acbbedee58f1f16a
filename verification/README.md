# Stateful cores of the local-model stack, verified

Five small stateful cores of this repository, modelled in Dafny and proved:

* **the Go router's data plane** (`router/internal`): the lock-free capacity pool, the routing table and its swaps,
  candidate selection, and the health machine;
* **the OpenCode Deck slot registry** (`opencode-deck`): six keys, promotion, stale presses, snapshot fencing;
* **the legacy router** (`router-legacy`): session-sticky admission and its accounts;
* **the benchmark planner** (`llmbench`): a worklist that adds to itself while it runs;
* **the render cache** (`opendeck-broker`): skipped uploads across disconnects.

`dafny verify dfyconfig.toml` checks everything.

## How the model is laid out

| files | what they hold |
|---|---|
| `PoolSteps.dfy`, `PoolTimes.dfy`, `Pool.dfy`, `PoolLeaks.dfy` | the pool as a machine of atomic operations by any number of threads; when leases were last active and which a reap takes; the pool object as one caller alone sees it, and the proof that it agrees with the machine; what repeated lease ids can cost |
| `RegistryTable.dfy`, `Routing.dfy`, `Choice.dfy`, `Serving.dfy` | the table and its rebuild; the gates, orders and stable sort; what is chosen, without reference to sorting; the two routing paths as code |
| `Rcu.dfy`, `RcuRuns.dfy`, `RcuTables.dfy`, `RcuEnds.dfy`, `RcuSwaps.dfy`, `RcuReaps.dfy` | requests, table swaps and watchdog passes interleaved over every pool ever published; which table each of them works on; that no request is ever stuck |
| `Health.dfy` | the health machine and the history it stands for |
| `DeckModel.dfy`, `DeckRegistry.dfy`, `DeckAnswers.dfy`, `DeckRuns.dfy`, `DeckSnapshots.dfy`, `DeckPress.dfy`, `DeckDebounce.dfy` | the registry calls as values; the object with its loops; what each call answers; whole runs; snapshots and display; the path from key to focus; the debounce with several threads in it |
| `LegacyRouter.dfy`, `LegacyRuns.dfy` | the router object; its accounts and choices over whole runs |
| `PlannerModel.dfy`, `Planner.dfy`, `PlannerKnees.dfy`, `PlannerRuns.dfy`, `PlannerClaims.dfy` | cells, coordinates and refinement as values; the planner object; how the knee moves as results come in; the run loop and its end; its documentation against it |
| `RenderCache.dfy` | device, cache, frame, and runs of plugging, checks and uploads in any order |

An object whose methods change fields is a class; each method is proved equal to a function of its old state, and the
theorems are about runs of those functions. Clocks, probes, HTTP, the map's iteration order, measurements and drawing
are parameters or arbitrary values. What a module takes for granted is in its preconditions; the two that matter are
that lease ids are distinct and that a device adapter reports a disconnect.

## Where the code differs from what it says of itself

* `router/internal/discovery/worker.go:77-79` says a rescan carries the in-flight state over. It builds new pools, so an
  endpoint can have more leases outstanding than its capacity until the old ones drain (`RcuSwaps.RescanDoesNotCarryOver`);
  the exact condition is `RcuSwaps.SwapKeepsBoundExactlyWhenDrained`. Health starts over as well.
* `router/internal/capacity/pool.go:86-87` expects a streaming proxy to call `Touch`. Nothing does, so a request that
  outlasts the hard timeout is reaped while it runs and its slot is given away (`RcuReaps.ReapedHolderOverrunsCapacity`).
  A pool keeps within its capacity exactly as long as evictions spare running requests
  (`RcuReaps.EvictionKeepsBoundExactlyWhenItSpares`).
* `router/internal/proxy/proxy.go:304-311` calls lease ids distinct, but the sequence number is read and incremented
  without synchronisation. Two equal ids can cost a slot for good, exactly on pools of two slots or more
  (`PoolLeaks.LeaksExactlyWhenIdsRepeat`).
* `router/internal/routing/classify.go:212-219` announces an id tiebreak that the comparison does not have
  (`Choice.SelectIsStableExactlyWhenUntied`).
* `router-legacy/router.py:289` says a leased session keeps its slot on a busy backend. The availability test has
  already decided by then (`LegacyRuns.BusyBackendTurnsItsSessionAway`); the session stays exactly while there is room
  (`LegacyRuns.SessionStaysWhereItWas`).
* `llmbench/src/llmbench/planner/plan.py:207` promises extra repetitions for noisy cells. The coordinate leaves the
  repetitions out, so the extra cell counts as measured (`PlannerModel.ExtraRepetitionNeedsRate`).
* `llmbench/src/llmbench/planner/plan.py:279-280` speaks of the previous step's gain; the code compares with the
  largest gain of all, later steps included (`PlannerClaims.KneesCanDiffer`, exactly when:
  `PlannerClaims.KneesAgreeExactly`).
* `llmbench/src/llmbench/cli/main.py:253-257` goes on after a failed cell, but that cell stays next
  (`PlannerRuns.FailingCellStarvesTheRest`).
* `llmbench/src/llmbench/cli/main.py:74-75` names a default concurrency cap; without the option the planner has none
  (`PlannerClaims.DoublesExactlyWithinCap`).
* `opencode-deck/opencode-deck/ocdeck/device.py:126-128` skips redrawing a key whose look is unchanged, and with it the
  update of the view a press sends. A press on a live instance can then be refused
  (`DeckPress.UnchangedLookRefusesLivePress`, exactly when: `DeckPress.DrawnKeyIsHonouredExactly`); it is never sent to
  another instance.
* `opencode-deck/opencode-deck/ocdeck/broker.py:94-97` debounces without a lock, while the main loop and the threads of
  the HTTP server all handle presses. Overlapping calls can both focus (`DeckDebounce.OverlappingCallsBothFocus`,
  exactly when: `DeckDebounce.LetThroughExactlyWhileUnwritten`), and an older time written late lets a third call through
  (`DeckDebounce.OlderTimeLetsThirdThrough`).
* `opendeck-broker/opendeck_broker/broker.py:90-94` detects a replug once per tick. One that starts and ends between two
  checks is missed, and a plug between a check and the uploads comes too late for them; either leaves unchanged keys dark
  (`RenderCache.MissedReplugLeavesKeysDark`, `RenderCache.PlugAfterCheckLeavesKeysDark`, exactly when:
  `RenderCache.ShownUnlessLost` and `RenderCache.ShowsEveryFrameExactlyWhenSure`).
* `opendeck-broker/opendeck_broker/broker.py:110-116` records an image before it is written and does not look at whether
  the write worked, so a refused one is never tried again while the frame stays the same
  (`RenderCache.RefusedWriteIsNotRetried`). The one adapter for a real device,
  `opendeck-broker/opendeck_broker/device/hid_mini.py:77` and `:112`, gives up its connection only when it is closed or a
  first connect fails; an unplug reaches the broker as refused writes (`:121`, `:130`), and no replug is ever detected.

## Model

| member | source | states |
|---|---|---|
| PoolSteps.Conservation | router/internal/capacity/pool.go:55-135 | In every interleaving of any number of Reserve, Release, ReapLeases and Touch calls the counter stays between 0 and the capacity and equals the leases in the map, plus the slots between the counter and the map, plus the slots lost to overwritten leases |
| PoolSteps.StepKeepsInv | router/internal/capacity/pool.go:55-135 | Each atomic operation of any thread keeps the account of the counter and its bound |
| PoolSteps.RunKeepsAccount | router/internal/capacity/pool.go:55-135 | Over every run each increment made for a lease id is in exactly one place: given back, leased, in a thread's hands, or lost |
| PoolSteps.Drained | router/internal/capacity/pool.go:74-84 | When nobody is at work and no lease is left, the counter is what was lost; it is zero if and only if no lease was ever overwritten |
| PoolSteps.ExactlyOnce | router/internal/capacity/pool.go:74-84 | With distinct lease ids each id is counted at most once and given back at most once however releases and reaps race, nothing is lost, and the counter is the leases plus the slots in transit |
| PoolSteps.RunLosesNothing | router/internal/capacity/pool.go:65-70 | With distinct lease ids no insert ever overwrites a live lease |
| PoolSteps.SlotsOnlyMoveForward | router/internal/capacity/pool.go:74-84 | Over whole runs the slot of an id only moves forward: free, counted, leased, owed, given back |
| PoolSteps.ReleaseReturnsOnce | router/internal/capacity/pool.go:74-84 | Once one Release of a recorded lease is past its mutex section, the id has been given back exactly once whenever the pool is at rest, whatever other releases and reaps did |
| PoolSteps.OwedReturnsOnce | router/internal/capacity/pool.go:74-84 | Once the slot of an id is owed, by whatever release or reap, it has been given back exactly once whenever the pool is at rest |
| PoolSteps.EvictionReturnsOnce | router/internal/capacity/pool.go:118-130 | The same for a lease that the reaper has evicted |
| PoolLeaks.LeaksExactlyWhenIdsRepeat | router/internal/proxy/proxy.go:305-311 | For a given capacity and list of Reserve ids, every interleaving with any releases, reaps and touches loses nothing, and every pool at rest without leases counts zero, if and only if the capacity is at most one or the ids are pairwise distinct |
| PoolLeaks.OneSlotLosesNothing | router/internal/capacity/pool.go:55-71 | A pool of one slot never loses one, even with repeated ids |
| PoolLeaks.DuplicateIdLeaksSlot | router/internal/proxy/proxy.go:305-311 | For any capacity of at least two and any ids with a repetition there is an interleaving that leaves nobody at work, no lease, and one slot counted for ever |
| PoolSteps.FailedSwapsArePaidFor | router/internal/capacity/pool.go:56-64 | In any run after a Reserve starts, its failed compare-and-swaps are at most the counter changes made by other threads |
| PoolSteps.RefusedExactlyWhenFull | router/internal/capacity/pool.go:57-60 | The load of a Reserve refuses if and only if the counter equals the capacity at that load |
| Pool.Pool.constructor | router/internal/capacity/pool.go:42-52 | A new pool is empty and has at least one slot |
| Pool.Pool.Reserve | router/internal/capacity/pool.go:55-71 | Undisturbed, refuses and changes nothing exactly when there is no free slot; otherwise one more slot is counted and the lease is there, started and last active at this time, no other lease touched |
| Pool.Pool.Release | router/internal/capacity/pool.go:74-84 | Undisturbed, deletes the lease and takes it off the counter; without such a lease changes nothing |
| Pool.Pool.Touch | router/internal/capacity/pool.go:88-94 | Moves the last activity of that lease only |
| Pool.Pool.ReapLeases | router/internal/capacity/pool.go:114-135 | Evicts exactly the leases for which the timeout is positive and more than it has passed since their last activity, leaves the others as they were, gives back that many slots and says how many |
| Pool.Pool.DeleteSilent | router/internal/capacity/pool.go:118-127 | The section under the mutex deletes exactly the silent leases, and lists their ids and no others, each once |
| Pool.Pool.Available | router/internal/capacity/pool.go:103-109 | The free slots, never negative |
| Pool.ReserveAlone | router/internal/capacity/pool.go:55-71 | The interleaving machine, run by one thread alone, does to a pool what the sequential Reserve does, in the steps load, swap, insert |
| Pool.ReleaseAlone | router/internal/capacity/pool.go:74-84 | The same for Release: mutex section, then one decrement only if the lease was there |
| Pool.OutlivesReapExactly | router/internal/capacity/pool.go:114-127 | A lease reserved at one time is still there after a pass of the reaper at another if and only if reaping is off or no more than the timeout lies between, and then its slot stays counted |
| PoolTimes.LeasesBearTheirTimes | router/internal/capacity/pool.go:65-94 | In every interleaving a lease in the map bears the time of the last Insert or effective Touch of its id as its last activity, and that of its last Insert as its start |
| PoolTimes.ReapsExactlyTheSilent | router/internal/capacity/pool.go:114-135 | In every interleaving the section of a reap under the mutex takes out exactly the leases for which the timeout is positive and more than it has passed since that last Insert or Touch; the others stay as they are and as many decrements are owed as leases were taken |
| RegistryTable.NewTable | router/internal/registry/table.go:48-81 | The table has exactly the endpoints by id, the last of several with one id; each has its own new, empty pool of its static capacity and its own new state, healthy and not draining |
| RegistryTable.All | router/internal/registry/table.go:87-93 | Every entry of the table and nothing else, each once, in an order about which nothing is known |
| RegistryTable.LastManifestCounts | router/internal/registry/table.go:56-66 | Every id of the list is in the table, with the last manifest that bears it |
| RegistryTable.KeepsTheAllowed | router/internal/discovery/worker.go:62-75 | Enforcing the contract keeps each manifest that is allowed as often as it is there, and no other |
| RegistryTable.TableHasTheAllowed | router/internal/discovery/worker.go:62-81 | With the contract enforced the table has an endpoint exactly if an allowed manifest bears its id, and then with the last allowed one |
| RegistryTable.Registry.constructor | router/internal/registry/table.go:124-128 | The first table is built from the seeds |
| RegistryTable.Registry.View | router/internal/registry/table.go:131-131 | Reads the current table |
| RegistryTable.Registry.Set | router/internal/registry/table.go:135-135 | Replaces the current table |
| RegistryTable.Registry.Rescan | router/internal/discovery/worker.go:44-85 | The table afterwards is built afresh from the configured and the discovered endpoints, without the excluded ones when the contract is enforced; every pool and state in it is new, so nothing in flight is carried over |
| Rcu.NextKeepsInv | router/internal/proxy/proxy.go:75-111 | Every event of the interleaved world of requests, swaps and watchdog passes keeps the invariant tying requests, threads and leases of all pools ever published |
| Rcu.LiveIsOk | router/internal/proxy/proxy.go:75-111 | That invariant holds in every reachable world |
| Rcu.TryKeepsInv | router/internal/proxy/proxy.go:79-85 | Going on to the next candidate keeps the invariant and starts a Reserve on a pool that has never seen this request before |
| Rcu.SettleKeepsInv | router/internal/proxy/proxy.go:80-84 | Keeps the invariant; the request holds the pool if and only if its own Reserve there was granted, and goes on to the rest if and only if it was refused |
| Rcu.LeaveKeepsInv | router/internal/proxy/proxy.go:104-107 | Keeps the invariant; the deferred release starts in the very pool that is held, with its leases as they were |
| Rcu.PublishKeepsInv | router/internal/discovery/worker.go:80-81 | Keeps the invariant; every old pool and every request is as it was, the new pools start empty, and the new table has the published endpoints and no others, each with the new pool of its last place in the list |
| RcuRuns.EveryPoolConserves | router/internal/registry/table.go:60-65 | Every pool ever published stays between 0 and its own capacity, and its counter is its leases and slots in transit, over any interleaving with swaps |
| RcuRuns.OnePoolEach | router/internal/proxy/proxy.go:79-85 | A request takes a slot in one pool at most, across all tables |
| RcuRuns.ReleasesWhatItReserved | router/internal/proxy/proxy.go:104-107 | A release under way in a pool is that of the request that reserved there and nowhere else, even when the table has been swapped since |
| RcuRuns.StaysWithItsPool | router/internal/proxy/proxy.go:104-107 | A pool once held is the pool the request holds, leaves or has left at every later time |
| RcuRuns.PoolsDrain | router/internal/proxy/proxy.go:104-111 | A pool of any table whose requests have finished, with no thread at work, has no lease and counts zero |
| RcuRuns.CounterCountsIds | router/internal/capacity/pool.go:55-84 | A pool's counter is the number of lease ids counted and not given back |
| RcuRuns.OutstandingIsTheSum | router/internal/registry/table.go:60-65 | The leases outstanding for an endpoint id are as many as the counters of all pools ever published for it add up to |
| RcuTables.TableIsTheLastPublished | router/internal/discovery/worker.go:80-81 | After any run the keys of the table are exactly the endpoint ids of the latest swap, and each entry is the pool that this swap made for the last place of that id, with the capacity given there |
| RcuTables.ViewedTheTable | router/internal/proxy/proxy.go:75-79 | What a request goes down are distinct pools, all of the table that was current at the moment it looked |
| RcuTables.GoesDownItsCandidates | router/internal/proxy/proxy.go:79-85 | At any point of any run a request that has looked is at one place of the candidates it took then, in their order, and every one before that place has refused it |
| RcuTables.HoldsTheFirstThatAdmits | router/internal/proxy/proxy.go:79-100 | A request holds the first of its candidates that did not refuse it, and it is turned away only after all of them have |
| RcuTables.PassReapsItsTable | router/internal/discovery/worker.go:118-126 | A watchdog pass has before it exactly the pools of the table that was current when it began, without those it has reaped, and reaps no others |
| RcuEnds.EveryRequestCanEnd | router/internal/proxy/proxy.go:75-111 | From every reachable world, whatever is under way in the pools and however often the table was swapped, each request has a continuation in which nothing but that request moves on and it leaves or is turned away: nobody is ever stuck behind another |
| RcuEnds.OwnStep | router/internal/proxy/proxy.go:75-111 | Every request that has not ended has an event of its own that brings it strictly nearer to its end |
| RcuSwaps.ShutIsBounded | router/internal/registry/table.go:60-65 | With its replaced pools empty and out of reach, an endpoint has at most as many leases outstanding as its current pool has slots |
| RcuSwaps.OutstandingBreaksBound | router/internal/discovery/worker.go:77-81 | If a lease of an endpoint is outstanding at a swap, new requests can push the endpoint past its capacity before the next swap |
| RcuSwaps.EnteringBreaksBound | router/internal/discovery/worker.go:77-81 | A request that is inside Reserve of an old pool at a swap, or asks it next, can take a slot there afterwards and let new requests push the endpoint past its capacity |
| RcuSwaps.SwapKeepsBoundExactlyWhenDrained | router/internal/discovery/worker.go:77-81 | Every continuation up to the next swap stays within the endpoint's capacity if at the swap no lease of it is outstanding and no request can still come to one of its pools, and only if no lease is outstanding and no request is entering one; with no request that would come to one only after another pool refuses, if and only if |
| RcuSwaps.RescanDoesNotCarryOver | router/internal/discovery/worker.go:77-81 | For an endpoint of any capacity, republished unchanged, there is a run with more leases outstanding than that capacity |
| RcuReaps.HoldersWithinCapacity | router/internal/discovery/worker.go:124-126 | If no eviction of a run hits a request that still runs, then at every time every holder of every pool has its lease and a pool serves at most as many requests as it has slots |
| RcuReaps.TimeoutOffSpares | router/internal/capacity/pool.go:115-117 | With the hard timeout off, no eviction ever hits a request that still runs |
| RcuReaps.ReapedRunnerOverrunsCapacity | router/internal/discovery/worker.go:124-126 | From any reachable world in which a running request of an endpoint's pool has lost its lease, a continuation without swap, further reap or touch has more holders than the pool has slots, for any capacity |
| RcuReaps.StaysWithinExactlyWhenLeased | router/internal/discovery/worker.go:124-126 | Every continuation without swap or reap keeps the pool within its capacity if and only if every request that runs on it has its lease |
| RcuReaps.EvictionKeepsBoundExactlyWhenItSpares | router/internal/capacity/pool.go:121-126 | In a run whose evictions have spared running requests so far, one more eviction keeps the pool within its capacity, in every continuation up to the next swap or eviction, if and only if it spares them too |
| RcuReaps.ReapedHolderOverrunsCapacity | router/internal/discovery/worker.go:124-126 | For any capacity there is a run without any Touch, as the proxy makes none, and with one table, in which a running request is reaped and the pool serves more requests at once than it has slots |
| Routing.Eligible | router/internal/proxy/proxy.go:264-297 | Exactly the entries that pass the capability, context and lifecycle gates |
| Routing.TurnedAwayForCause | router/internal/proxy/proxy.go:264-297 | An entry passes if and only if it has vision, tools and streaming as far as they are needed, at least the needed context, and is enabled, healthy and not draining; the code of one that does not pass names what is wrong, nothing earlier in this order being wrong |
| Routing.SmallerNeedPasses | router/internal/proxy/proxy.go:264-297 | An endpoint that may serve a need may serve each that asks no more |
| Routing.KeptOrLogged | router/internal/proxy/proxy.go:264-297 | Every entry is kept or has one line in the log |
| Routing.LoggedExactly | router/internal/proxy/proxy.go:264-297 | The lines of the log are the id and the reason of each entry that fails a gate, and no others |
| Routing.LoggedInOrder | router/internal/proxy/proxy.go:264-297 | The lines come in the order of the entries |
| Routing.StringLessAt | router/internal/proxy/util.go:26-37 | Ids are ordered by the first character in which they differ, a proper prefix before the longer id |
| Routing.OrdersPreferSmaller | router/internal/proxy/util.go:26-37 | The smaller priority number comes first, then the smaller context window, then the smaller id; Select's order stops at the context |
| Routing.OrdersAreWeak | router/internal/proxy/util.go:26-37 | Both orders are strict with transitive ties, and the full order by priority, context and id decides between any two endpoints of different id |
| Routing.SortSorts | router/internal/proxy/util.go:26-37 | The sorted list is in order and a permutation of the input, for any such order |
| Routing.SiftDown | router/internal/proxy/util.go:26-37 | In place, one element goes to its place among those sorted before it, after its equals |
| Routing.SliceStable | router/internal/proxy/util.go:26-37 | Sorts the array in place to the stably sorted list |
| Choice.SortedFirst | router/internal/proxy/proxy.go:79-85 | The first free entry of the stably sorted list is the one a single pass over the unsorted list would keep, replacing its best only by a strictly better one |
| Choice.FirstLeastIsForemost | router/internal/routing/classify.go:212-233 | What that pass keeps is strictly before every free entry enumerated earlier, and no later one is strictly before it; it keeps none exactly when none is free |
| Choice.PickIsFirstLeast | router/internal/proxy/proxy.go:264-302 | Filtering, sorting and taking the first free one equals the single pass over all entries |
| Choice.PickIsForemost | router/internal/proxy/proxy.go:264-302 | What is picked is the foremost usable entry of the enumeration, there is one such at most, and nothing is picked exactly when none is usable |
| Choice.BuiltIsKeyed | router/internal/registry/table.go:57-65 | A built table has every endpoint under its own id |
| Choice.CandidatesSorted | router/internal/proxy/proxy.go:259-302 | The candidate list is the table's eligible endpoints, each once, sorted by priority, context and id |
| Choice.SortedAgree | router/internal/proxy/util.go:26-37 | Two lists of the same endpoints sorted by the full order are the same list |
| Choice.SameCandidates | router/internal/proxy/proxy.go:259-302 | The candidate list is the same for any two orders in which the map may be ranged over |
| Choice.ProxyPicksLeast | router/internal/proxy/proxy.go:79-85 | The proxy picks an endpoint if and only if it is the least by priority, context and id among the eligible ones with a free slot, and none exactly when there is none |
| Choice.UsableExactly | router/internal/proxy/proxy.go:79-85 | An endpoint of the table is usable if and only if it has what is needed of vision, tools, streaming and context, is enabled, healthy and not draining, and counts fewer leases than its capacity |
| Choice.SmallerNeedIsServed | router/internal/proxy/proxy.go:264-297 | Whatever is usable for a need is usable for each that asks no more |
| Choice.SelectAgrees | router/internal/routing/classify.go:150-236 | From one state Select and the proxy refuse in the same states, agree on priority and context, and on the endpoint when nothing ties with it |
| Choice.SelectIsStableExactlyWhenUntied | router/internal/routing/classify.go:212-219 | Select picks the proxy's endpoint under every order of the map if and only if no other eligible endpoint with a free slot has its priority and context |
| Choice.FrontedBy | router/internal/routing/classify.go:212-219 | An endpoint that ties with the best is what Select picks under some order of the map |
| Serving.Filter | router/internal/proxy/proxy.go:264-297 | The loop with its seven gates keeps exactly the eligible entries in order and logs the others with the first reason that applies |
| Serving.OrderedCandidates | router/internal/proxy/proxy.go:259-302 | Returns exactly the eligible endpoints of the table, sorted, and the log of the others, for the order the map happened to have |
| Serving.ReserveFirstFree | router/internal/proxy/proxy.go:77-85 | Reserves in the first listed pool that has a slot; that pool gains the one lease and no other pool changes |
| Serving.Serve | router/internal/proxy/proxy.go:70-100 | Undisturbed, a request gets the least usable endpoint by priority, context and id, which has what it needs, is in service and had a free slot; its pool gains the lease and no other changes; it is refused exactly when every endpoint of the table lacks one of these |
| Serving.ReserveAndLog | router/internal/routing/classify.go:222-235 | As ReserveFirstFree, with a log line for each candidate tried up to the selected one |
| Serving.Select | router/internal/routing/classify.go:150-236 | Select reserves what filtering and its sort without the id pick under the order the map happened to have, an endpoint that has what is needed, is in service and had a free slot; it refuses exactly when every endpoint lacks one of these, and logs rejections and tries in order |
| Serving.UsableAreAble | router/internal/proxy/proxy.go:264-302 | The usable endpoints are entries of the table that have what is needed, are in service and have a free slot, and with none usable every entry lacks one of these |
| Serving.PairPickIsAble | router/internal/routing/classify.go:212-235 | What Select's order picks has what is needed, is in service and has a free slot, and it picks none exactly when every entry lacks one of these |
| Serving.TriedInOrder | router/internal/routing/classify.go:222-235 | The lines for the tries name the candidates in order, each with the capacity code exactly when it has no free slot, up to the first that has one, which is selected |
| Health.Apply | router/internal/health/worker.go:93-123 | One probe result moves the endpoint by the threshold machine, and touches neither enabled nor draining |
| Health.VerdictStep | router/internal/health/worker.go:93-123 | One more probe changes the verdict of the history exactly when it completes a long enough run of the other kind |
| Health.NotBelowThreshold | router/internal/health/worker.go:93-123 | While healthy the failures at the end are fewer than the failure threshold and are what is counted; while unhealthy the same of successes |
| Health.HealthIsItsHistory | router/internal/health/worker.go:93-123 | After any probes on a fresh endpoint it is unhealthy if and only if the most recent run as long as its threshold was one of failures |
| Health.CountersAreTheRuns | router/internal/health/worker.go:93-123 | After any probes the two counters are the lengths of the runs of failures and of successes at the end of the probes since the endpoint last became healthy or unhealthy |
| DeckRegistry.Registry.constructor | opencode-deck/opencode-deck/ocdeck/model.py:9-15 | Six free slots and no records |
| DeckRegistry.Registry.Upsert | opencode-deck/opencode-deck/ocdeck/model.py:17-41 | Registers at the end with the first free slot, or renews the same process; every error leaves the registry as it was |
| DeckRegistry.Registry.Snapshot | opencode-deck/opencode-deck/ocdeck/model.py:43-66 | Accepts a snapshot, or leaves the whole registry as it was when it is invalid, unknown or stale |
| DeckRegistry.Registry.Remove | opencode-deck/opencode-deck/ocdeck/model.py:68-80 | The pop and the promotion loop together take the record out and give a freed slot to the first waiting record |
| DeckRegistry.Registry.Promote | opencode-deck/opencode-deck/ocdeck/model.py:75-80 | The loop over all records, with its search for a free slot, promotes exactly the record in the sixth place, once |
| DeckRegistry.Registry.Sweep | opencode-deck/opencode-deck/ocdeck/model.py:82-86 | Removes, one after another, the records whose probe says definitively dead |
| DeckRegistry.Registry.View | opencode-deck/opencode-deck/ocdeck/model.py:88-106 | Six views, each with the slot's id and generation and the look its record calls for |
| DeckRegistry.Registry.Resolve | opencode-deck/opencode-deck/ocdeck/model.py:108-117 | A record exactly for a slot in range with the id and generation of the press and a process found alive; for one found dead, or of which nothing is known, none |
| DeckRegistry.PromotionAt | opencode-deck/opencode-deck/ocdeck/model.py:76-80 | What the promotion loop meets at each place of the order |
| DeckModel.UpsertKeepsInv | opencode-deck/opencode-deck/ocdeck/model.py:17-41 | Registering keeps the slot invariant |
| DeckModel.AcceptKeepsInv | opencode-deck/opencode-deck/ocdeck/model.py:43-66 | Snapshots keep the slot invariant |
| DeckModel.RemoveKeepsInv | opencode-deck/opencode-deck/ocdeck/model.py:68-80 | Removing, with promotion, keeps the slot invariant |
| DeckAnswers.RegistersExactly | opencode-deck/opencode-deck/ocdeck/model.py:17-41 | Which registrations are refused, and why: for an id that is empty or longer than 128, for another process under a known id, for a new one without a process found alive; all others are taken |
| DeckAnswers.NewcomerIsAsAsked | opencode-deck/opencode-deck/ocdeck/model.py:30-41 | A first registration joins at the end, as it was asked for and cut to length, in the lowest free slot or waiting, of unknown status; the first valid snapshot it gets is taken whatever its producer and number |
| DeckAnswers.RenewalOnlySees | opencode-deck/opencode-deck/ocdeck/model.py:24-26 | A renewal moves the time the instance was last seen, and nothing else |
| DeckAnswers.SnapshotRefusedExactly | opencode-deck/opencode-deck/ocdeck/model.py:43-56 | Which snapshots raise an error, and which error: an unknown status, a missing or negative number or a producer that is empty or longer than 128, a count outside 0 to 10000, an unregistered id, in this order |
| DeckAnswers.TakenIsReported | opencode-deck/opencode-deck/ocdeck/model.py:56-66 | After a snapshot is taken the record says what it said, its detail cut to 200; slots, generations and who the record is stay |
| DeckAnswers.RemovalRaises | opencode-deck/opencode-deck/ocdeck/model.py:68-80 | A removal raises the generation of the freed slot by one, by two when a waiting record takes the slot over, and no other |
| DeckAnswers.ShowsTheHolder | opencode-deck/opencode-deck/ocdeck/model.py:88-106 | What a key shows of the record in its slot: unknown when its report is older than the limit or says so, else input with anything pending, else running when busy or retrying, else idle, with its texts |
| DeckAnswers.ResolvesExactly | opencode-deck/opencode-deck/ocdeck/model.py:108-117 | A press resolves if and only if it names one of the six slots with the id and generation that slot has now, the id is registered, and its process is found alive; and to that record |
| DeckRuns.SlotOwnership | opencode-deck/opencode-deck/ocdeck/model.py:27-37 | In every reachable state the holders are exactly the first six records in registration order, slots and records are inverse to each other, and a generation is odd exactly when its slot is taken |
| DeckRuns.NobodyIsMoved | opencode-deck/opencode-deck/ocdeck/model.py:68-80 | A record there before and after a call is the same registration and keeps the slot it had |
| DeckRuns.SweepIsExact | opencode-deck/opencode-deck/ocdeck/model.py:82-86 | A sweep leaves exactly the records not found dead, in order and otherwise unchanged, holders keep their slots and the first six survivors hold them, whatever was promoted and removed on the way |
| DeckRuns.RunFences | opencode-deck/opencode-deck/ocdeck/model.py:28-29 | Over any part of a run the generation of a slot never falls, and if it is unchanged the slot has the same registration |
| DeckRuns.EqualGenerationsMeanSameHolder | opencode-deck/opencode-deck/ocdeck/model.py:108-117 | Equal generations in two states of a run mean that in every state between the slot had that generation and that very registration, not a namesake |
| DeckRuns.StalePressNeverResolves | opencode-deck/opencode-deck/ocdeck/model.py:108-117 | A view captured in one state resolves in a later one only to the registration that has held the slot in every state between |
| DeckSnapshots.StaleExactlyWhenBlocksBreak | opencode-deck/opencode-deck/ocdeck/model.py:53-62 | A valid snapshot is rejected if and only if appending it would break the blocks of what was accepted |
| DeckSnapshots.AcceptedInBlocks | opencode-deck/opencode-deck/ocdeck/model.py:53-66 | Over a whole run the snapshots accepted for one registration form blocks, one a producer, with strictly rising numbers and no producer in two blocks, and its record shows the last of them |
| DeckSnapshots.SnapshotTakenExactlyWhenFenced | opencode-deck/opencode-deck/ocdeck/model.py:53-66 | At any point of a run a valid snapshot is taken if and only if the blocks stay intact with it, and a rejected one changes nothing at all |
| DeckSnapshots.OthersLeaveTelemetry | opencode-deck/opencode-deck/ocdeck/model.py:43-66 | Only an accepted snapshot of its own changes what a record reports |
| DeckSnapshots.DisplayNeverLies | opencode-deck/opencode-deck/ocdeck/model.py:88-106 | In every reachable state a key is off exactly when its slot is empty, and shows idle, running or input exactly when the latest accepted snapshot of its holder is known, at most stale_after old and means that |
| DeckPress.PressQueue.Put | opencode-deck/opencode-deck/ocdeck/device.py:87-90 | A full queue drops the press and keeps what it has |
| DeckPress.DeviceLoop.Press | opencode-deck/opencode-deck/ocdeck/device.py:81-90 | A key going down queues the view that key was drawn from, if any |
| DeckPress.QueuedInOrder | opencode-deck/opencode-deck/ocdeck/device.py:81-90 | In the interleaved path too a key going down joins the end of the queue with the view on the key, as long as fewer than 64 wait, and presses are taken from the front |
| DeckPress.PressSendsWhatIsThere | opencode-deck/opencode-deck/ocdeck/device.py:81-137 | From any state of that path a read, the drawing of a key and a press of it queue what the slot holds now |
| DeckPress.UnplugClearsKeys | opencode-deck/opencode-deck/ocdeck/device.py:139-154 | When the device is given up no key has a view, and none gets one before the next read |
| DeckPress.DeviceLoop.Draw | opencode-deck/opencode-deck/ocdeck/device.py:121-137 | After a pass each key shows the look of its view, a key with an unchanged look keeps the view it had, and a failed write forgets everything drawn |
| DeckPress.Broker.HandlePress | opencode-deck/opencode-deck/ocdeck/broker.py:90-101 | Focus exactly for a press that resolves and is not within the debounce time; only then is its time remembered |
| DeckPress.FocusGoesWhereTheKeyPointed | opencode-deck/opencode-deck/ocdeck/broker.py:90-101 | However registry calls, drawing, presses and their handling interleave, a focus goes to the registration that held the slot when the pressed view was read and has held it ever since |
| DeckPress.FocusesExactly | opencode-deck/opencode-deck/ocdeck/broker.py:90-101 | A press focuses if and only if it resolves, so its process was found alive, and its instance was let through at least 0.2 ago, or never since -100; any other press leaves no trace, and an unresolved one is called empty or stale |
| DeckPress.LooksDiffer | opencode-deck/opencode-deck/ocdeck/device.py:121-128 | A key is redrawn exactly when state or title has changed, or the frame of a key that is not off |
| DeckPress.HonouredExactlyWhileGenerationLasts | opencode-deck/opencode-deck/ocdeck/model.py:108-117 | Whatever the probe says, a captured view resolves if and only if its slot was held, still has its generation, and the process is found alive |
| DeckPress.UnchangedLookRefusesLivePress | opencode-deck/opencode-deck/ocdeck/device.py:126-128 | A key can show a live instance and refuse its press, because an unchanged look kept the view of the instance before it |
| DeckPress.DrawnKeyIsHonouredExactly | opencode-deck/opencode-deck/ocdeck/device.py:121-137 | After a pass that draws the current views, a press on the key of a held slot is honoured if and only if the process is found alive and the key was redrawn or the view it kept has the slot's current generation |
| DeckDebounce.FocusesAreSpaced | opencode-deck/opencode-deck/ocdeck/broker.py:94-97 | However many threads handle presses, if no call reads the last press inside the read-to-write window of another on the same id, any two focuses of one id are at least the debounce time apart |
| DeckDebounce.LetThroughExactlyWhileUnwritten | opencode-deck/opencode-deck/ocdeck/broker.py:94-97 | With windows apart so far, a call less than the debounce time after the latest one let through, or before it, is itself let through if and only if that one has not written yet and the last press remembered is the debounce time back; when it is not before it, if and only if that one has not written yet |
| DeckDebounce.LaterFocusIsSpaced | opencode-deck/opencode-deck/ocdeck/broker.py:94-97 | When a call writes its focus while no other window on its id is open, every call let through later is at least the debounce time after it, whatever overlaps then |
| DeckDebounce.HandledAlone | opencode-deck/opencode-deck/ocdeck/broker.py:90-101 | The steps of one undisturbed call do what the sequential handling of a press says |
| DeckDebounce.OverlappingCallsBothFocus | opencode-deck/opencode-deck/ocdeck/broker.py:94-97 | Two calls on one id that read before either writes both focus, at any two times |
| DeckDebounce.OlderTimeLetsThirdThrough | opencode-deck/opencode-deck/ocdeck/broker.py:94-97 | An overlapping call can write its older time over a newer one, and then a third call focuses within the debounce time though its own window overlaps none |
| LegacyRouter.Router.CleanupSessions | router-legacy/router.py:275-282 | Drops exactly the expired leases of sessions with no request out, and their counts |
| LegacyRouter.Router.CanUse | router-legacy/router.py:284-293 | Healthy with a free slot; the session makes no difference |
| LegacyRouter.Router.AdmitOn | router-legacy/router.py:315-320 | One more in flight on that backend and for that session, whose lease is now there |
| LegacyRouter.Router.FirstUsable | router-legacy/router.py:349-350 | The usable backend of least priority number, the first configured of equals, or none when none is usable |
| LegacyRouter.Router.Select | router-legacy/router.py:295-361 | After the cleanup: the vision pin if usable, else the session's own backend if usable, else the best usable; exactly that backend is charged |
| LegacyRouter.Router.Release | router-legacy/router.py:363-384 | One less on the backend and for the session, the lease on that backend renewed for its time to live, then the cleanup |
| LegacyRouter.OrderSorts | router-legacy/router.py:349-349 | The priority order has every backend once, ties in configured order |
| LegacyRouter.CleanupKeepsExactly | router-legacy/router.py:275-282 | A lease survives a cleanup if and only if it has not run out or its session has requests, and then as it was; no count that is not zero changes |
| LegacyRouter.UsableExactly | router-legacy/router.py:284-293 | A backend is usable if and only if it is healthy and what it reports busy and what was sent there leave a slot |
| LegacyRouter.BestIsLeast | router-legacy/router.py:349-350 | The best usable backend has the least priority number of all usable ones and is the first configured of those |
| LegacyRouter.EmptyIdIsNobody | router-legacy/router.py:312-384 | The empty session id is routed and accounted for like none, in select and in release |
| LegacyRouter.AdmitsExactly | router-legacy/router.py:315-358 | An admission takes one slot on its backend and counts one request for the session, whose lease is there until its time to live is over; no other backend or session is touched |
| LegacyRouter.ReturnsExactly | router-legacy/router.py:368-383 | A release gives back one slot and one request of the session, neither below zero, forgets a count of zero, and renews the session's lease for its time to live exactly when that is on this backend; nothing else is touched |
| LegacyRuns.NextKeepsInv | router-legacy/router.py:295-384 | Each select, release, probe or cleanup keeps the accounts exact |
| LegacyRuns.EveryCallMayCome | router-legacy/router.py:295-384 | The runs leave no call out: in every such state select has an answer for whatever request, and every release of an outstanding request, every probe and every cleanup may come |
| LegacyRuns.AccountsAreExact | router-legacy/router.py:295-384 | Over all runs each backend's in-flight number equals its outstanding requests and is within its cap, each session's count equals its outstanding requests, and no session with any is without a lease |
| LegacyRuns.AccountsDrain | router-legacy/router.py:363-384 | When everything admitted is released nothing is counted any more |
| LegacyRuns.NoneExactlyWhenNoneUsable | router-legacy/router.py:312-361 | Through any of the three paths select refuses if and only if no backend is healthy with a free slot, and its choice is determined by the state |
| LegacyRuns.StickyElsePriority | router-legacy/router.py:332-359 | A request without images goes to its session's leased backend whenever that is usable, otherwise to the usable one of least priority number |
| LegacyRuns.VisionPinned | router-legacy/router.py:312-331 | An image request goes to the forced backend whenever usable, otherwise where any request would go |
| LegacyRuns.RefusesExactlyWhenFull | router-legacy/router.py:312-361 | At any point of any run, by any of the three paths, select refuses if and only if every backend is unhealthy or filled by its reported requests and those admitted there and not yet released |
| LegacyRuns.AlwaysFollow | router-legacy/router.py:315-358 | Over all runs backends keep name, priority and cap, and a session's lease is on the backend of its latest admitted request |
| LegacyRuns.LeasesExpireAfterUse | router-legacy/router.py:315-384 | Over all runs a lease ends its time to live after the session's last use: the later of its latest admission and its latest release on the backend it was last sent to, taken from the events alone |
| LegacyRuns.LeasedWithinTtl | router-legacy/router.py:275-384 | As long as no clock has been read at or past that end, the lease is there, whatever happened in between |
| LegacyRuns.SessionStaysWithinTtl | router-legacy/router.py:332-384 | Within its time to live from its last use, a session's request without images goes where its latest request went whenever there is room |
| LegacyRuns.SessionStaysWhereItWas | router-legacy/router.py:332-359 | At any point of any run a request without images, of a session with requests out or a lease not run out, goes where that session's latest request went whenever there is room, otherwise to the backend with room of least priority number |
| LegacyRuns.ImagesGoToVision | router-legacy/router.py:312-331 | At any point of any run an image request goes to the vision backend whenever that has room, otherwise where it would go without the pin |
| LegacyRuns.LeaseSurvivesUse | router-legacy/router.py:275-282 | No cleanup takes the lease of a session with requests out, however old |
| LegacyRuns.BusyBackendTurnsItsSessionAway | router-legacy/router.py:287-292 | A run after which a session with a request out on its leased backend, healthy and the only one, is refused because the backend reports itself busy |
| Planner.FindSaturationKnee | llmbench/src/llmbench/planner/plan.py:276-295 | The first concurrency whose gain is below a tenth of the largest gain of all, none for fewer than three points |
| Planner.KneeExactly | llmbench/src/llmbench/planner/plan.py:276-295 | With fewer than three pairs there is no knee; otherwise it is the level of the first step that gains less than a tenth of what any step of greatest gain does, a greatest gain of zero counting as one, and there is none exactly when no step does |
| Planner.KneeIsOne | llmbench/src/llmbench/planner/plan.py:276-295 | One list of pairs has one answer |
| Planner.SortSorts | llmbench/src/llmbench/planner/plan.py:214-217 | The pairs go in ascending and none is added or lost |
| Planner.PairsExactly | llmbench/src/llmbench/planner/plan.py:211-217 | The pairs the knee is looked for in are level and throughput of the closed-loop results, and of no others |
| Planner.AdaptivePlanner.NextCell | llmbench/src/llmbench/planner/plan.py:186-192 | The first planned cell whose coordinate has no result |
| Planner.AdaptivePlanner.MarkDone | llmbench/src/llmbench/planner/plan.py:194-195 | The result is stored under its coordinate, over an earlier one, and no other is touched |
| Planner.OverwritesExactly | llmbench/src/llmbench/planner/plan.py:194-195 | With one result a coordinate, storing over an earlier one replaces that one in its place and leaves every other where and as it was |
| Planner.AdaptivePlanner.Refine | llmbench/src/llmbench/planner/plan.py:201-258 | The proposals are the cells around the knee and the extra repetitions; the plan grows by those whose coordinate is neither planned nor measured, each once |
| Planner.AdaptivePlanner.AroundKnee | llmbench/src/llmbench/planner/plan.py:219-232 | The candidates around the knee that are positive, within the cap and not measured |
| Planner.AdaptivePlanner.ForNoisyResults | llmbench/src/llmbench/planner/plan.py:236-249 | One extra cell for each result with a high spread and fewer than three repetitions |
| PlannerModel.ExtendedIsNew | llmbench/src/llmbench/planner/plan.py:251-257 | Whatever a refinement appends was proposed and has a coordinate neither planned nor measured |
| PlannerModel.ExtendedExactly | llmbench/src/llmbench/planner/plan.py:251-257 | A refinement appends, in the order they were proposed, exactly those proposals that come first with a coordinate neither planned nor measured |
| PlannerModel.SameCoordinateExactly | llmbench/src/llmbench/schemas/core.py:85-93 | Two cells share a coordinate if and only if they differ in nothing but the repetitions and how a rate of zero is written |
| PlannerModel.KneeCellIsTheMiddle | llmbench/src/llmbench/planner/plan.py:226-230 | A cell around a knee has the middle one of the allowed contexts, or 4096 when none is, 512 tokens, cold cache, one repetition and no rate |
| PlannerModel.ProposedAroundKneeExactly | llmbench/src/llmbench/planner/plan.py:219-232 | A knee proposes the levels at half of it, one below, itself, one above and double, in this order, exactly as far as they are positive, the cap allows them and no closed-loop result is at them |
| PlannerModel.ProposedForNoiseExactly | llmbench/src/llmbench/planner/plan.py:236-249 | Noise proposes, for exactly the results that vary by more than 0.35 in either latency and were repeated less than three times, their workload with one repetition more and no rate |
| PlannerModel.ProposedInOrder | llmbench/src/llmbench/planner/plan.py:236-249 | These come in the order of the results |
| PlannerModel.ExtraRepetitionNeedsRate | llmbench/src/llmbench/planner/plan.py:236-257 | An extra repetition has the coordinate just measured, so it never joins the plan, unless the cell had an arrival rate, and then it joins without it |
| PlannerModel.UniverseBound | llmbench/src/llmbench/planner/plan.py:201-258 | The coordinates a run can reach are at most two for each planned cell and one for each concurrency level up to the cap |
| PlannerModel.UniverseClosed | llmbench/src/llmbench/planner/plan.py:201-258 | That universe holds the plan and is closed under refinement |
| PlannerRuns.RefineStaysIn | llmbench/src/llmbench/planner/plan.py:201-258 | A refinement never plans a coordinate outside the universe that is open to the knee it found, whatever was measured |
| PlannerRuns.RunOne | llmbench/src/llmbench/cli/main.py:246-273 | A round ends the run with everything planned measured, or fails its cell and changes nothing, or adds the result of the next cell, whose coordinate is new; then fewer coordinates are left, or the knee is higher than ever and, on throughputs of one unit, the largest gain has fewer units than at the last such knee |
| PlannerRuns.RunBenchmark | llmbench/src/llmbench/cli/main.py:242-273 | For every measurement oracle the run ends by the step at which the budget is used up; if no cell fails for ever it ends without a budget, under a concurrency cap, and without a cap too when all throughputs are multiples of one unit, as floating-point numbers are; no coordinate is measured twice, under a cap the results are at most twice the plan plus the cap, and a run not cut short has measured all it planned |
| PlannerKnees.HigherKneeLowersMost | llmbench/src/llmbench/planner/plan.py:276-295 | Each time the knee is higher than it was after fewer results, the largest gain is positive and strictly smaller than it was then |
| PlannerRuns.FailingCellStarvesTheRest | llmbench/src/llmbench/cli/main.py:253-257 | Through any number of rounds the planner does not move and nothing but the next cell is run if and only if that cell fails in all of them |
| PlannerRuns.SuccessMovesOn | llmbench/src/llmbench/cli/main.py:258-273 | Once a cell has succeeded, what is next has another coordinate |
| PlannerClaims.KneesAgreeExactly | llmbench/src/llmbench/planner/plan.py:276-295 | On sorted results, repeated levels or not, the knee found is the documented one if and only if no step below its level, and some step to it, gains less than a tenth of the largest gain of all; with no documented knee, if and only if no step does |
| PlannerClaims.KneesCanDiffer | llmbench/src/llmbench/planner/plan.py:279-280 | A throughput series with a knee by the code and none by the documentation, whatever its levels, distinct or all the same |
| PlannerClaims.DoublesExactlyWithinCap | llmbench/src/llmbench/cli/main.py:74-75 | From results no higher than a level, whatever level, a planner can propose its double if and only if the cap allows that; without the option every double is allowed |
| RenderCache.SlotRegistry.Frame | opendeck-broker/opendeck_broker/registry.py:203-221 | Six states in order, black exactly for slots without a live instance |
| RenderCache.ShowsTheOccupant | opendeck-broker/opendeck_broker/model.py:137-155 | A key is black exactly when its slot has no live instance; else it shows unknown when that is not trusted, else input with a permission or question open, else run when busy or retrying, else idle, under the instance's title |
| RenderCache.Device.SetKeyImage | opendeck-broker/opendeck_broker/device/mock.py:38-43 | A connected device takes the image unless the write raises an error, a disconnected one refuses it |
| RenderCache.Device.Connect | opendeck-broker/opendeck_broker/device/mock.py:31-33 | Opens the device if it can be opened, and says so |
| RenderCache.Broker.constructor | opendeck-broker/opendeck_broker/broker.py:45-56 | Starts with an empty cache and with what the device, if there is one, says of its connection |
| RenderCache.Broker.Start | opendeck-broker/opendeck_broker/broker.py:59-79 | Opens the device if it is not there; then the cache is forgotten, black is sent to every key, and the device counts as seen; when it cannot be opened, or there is none, nothing changes |
| RenderCache.Broker.Upload | opendeck-broker/opendeck_broker/broker.py:110-116 | Skips an image recorded for the key; otherwise records it, and the key shows it if the device is there and the write works |
| RenderCache.Broker.UploadBlackFrame | opendeck-broker/opendeck_broker/broker.py:118-124 | Black goes through the cache to every key |
| RenderCache.Broker.Render | opendeck-broker/opendeck_broker/broker.py:127-136 | The frame goes through the cache key by key |
| RenderCache.Broker.MaybeReconnect | opendeck-broker/opendeck_broker/broker.py:90-103 | Empties the cache exactly when the device is back after it was seen away |
| RenderCache.Broker.Tick | opendeck-broker/opendeck_broker/main.py:71-78 | Looks for a reconnect, then renders the registry's frame |
| RenderCache.UndisturbedTick | opendeck-broker/opendeck_broker/main.py:71-78 | A check followed by the uploads of a frame, with nothing between, is the tick |
| RenderCache.AlwaysHonest | opendeck-broker/opendeck_broker/broker.py:110-136 | Whatever plugging, checks, uploads and refused writes of any thread come in whatever order, a key with an image in the cache shows that image if and only if it is not lost, which the run alone tells |
| RenderCache.ShownUnlessLost | opendeck-broker/opendeck_broker/broker.py:110-136 | A key sent its image since the last check shows that image if and only if it is not lost: dark or refused its image unnoticed, and sent the same again |
| RenderCache.ScheduleDecides | opendeck-broker/opendeck_broker/broker.py:90-116 | Connection, what the last check saw, and which keys are cached depend on the schedule and not on the images |
| RenderCache.ShowsEveryFrameExactlyWhenSure | opendeck-broker/opendeck_broker/broker.py:90-136 | A schedule of plugging, checks, uploads and refused writes shows a key's image whatever the images are, as uploading everything would, if and only if the key is not doubtful in it |
| RenderCache.NothingDoubtful | opendeck-broker/opendeck_broker/broker.py:90-116 | If no complete replug falls between two checks and no write to the key is refused while the device is there, the key is not doubtful after a check that sees the device, until the next unplug |
| RenderCache.KeysShowTheFrame | opendeck-broker/opendeck_broker/broker.py:90-136 | If besides no plug falls between the check of a tick and the end of its uploads, a tick that ends connected leaves the key with the image last sent to it, whatever else was rendered meanwhile or while disconnected |
| RenderCache.MissedReplugLeavesKeysDark | opendeck-broker/opendeck_broker/broker.py:90-103 | In any run, unplugged and back between two ticks, a key whose image stays the same stays dark |
| RenderCache.PlugAfterCheckLeavesKeysDark | opendeck-broker/opendeck_broker/main.py:72-76 | In any run, back after the check of a tick has seen the device away and before its uploads, a key whose image stays the same stays dark though no replug was missed |
| RenderCache.RefusedWriteIsNotRetried | opendeck-broker/opendeck_broker/broker.py:110-116 | A key whose write is refused while the device is there keeps its old image through any number of ticks that send the same frame and would work |

## Left out

- PlannerRuns.RunBenchmark: gains are exact differences of throughputs, where the code's are rounded; without a cap and a budget nothing is claimed for throughputs that have no common unit, which floating-point numbers always have.
- RcuSwaps.SwapKeepsBoundExactlyWhenDrained: between its two conditions lie requests that have an old pool of the endpoint behind another candidate at the swap; whether such a request can reach it depends on whether pools of other endpoints can be made to refuse.
- RenderCache.Broker.Upload: recording an image and writing it count as one event, at the write.
- Serving.Serve: a request that nobody disturbs between filter and reservation; what holds when others step in is in `Rcu`, where the candidates are an arbitrary list of pools of the loaded table.
- Rcu.NextKeepsInv: lease ids are distinct by construction, since a request arrives under an unused id.
- DeckRegistry.Registry.Sweep: the probe's answers are given one for each record there at the start, so a probe that itself calls the registry is not modelled.
- HTTP, SSE, streaming, header and body handling, model-name rewriting, telemetry text, and the deferred release's logging.
- Decoding of JSON and YAML: a registration, a snapshot or a request is a record of the fields the cores read; a field of the wrong type is an absent one.
- Configuration, environment variables and port-contract checking; whether an endpoint passes the contract is an arbitrary predicate.
- `RequiredContext` and `smallestSufficientClass`: the needed context is a number that comes with the request, and the class is computed and not used.
- Capability and class indexes of the routing table, and `Get`, `IDs` and the counting helpers: the data plane does not read them.
- Enabling, disabling and draining endpoints by the admin interface: these flags are read, and arbitrary.
- The `onReap` callback and the endpoint id stamped on a lease.
- The legacy router's probing, its byte and request counters, and the connect failure that puts a backend down outside `select` and `release`; a probe sets health and a non-negative busy number at will.
- Focusing a window, the epoch, the last-focus record, and the HTTP server of the deck broker.
- The deck's images, frame counter, brightness, device discovery and reconnect timing; a write fails at an arbitrary key.
- The adapter, REST interface, press queue, leases and slot assignment of `opendeck-broker`: the render cache takes any frame.
- Planner decision strings, time estimates, plan building for the light and heavy modes, and scoring, aggregation and reports.
- Integer widths: the Go counter and the generations stay far below their limits, and are unbounded here.
- `opendeck`, `streamdeck`, `video` and the one-off scripts.
