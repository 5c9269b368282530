# Vrata: verified core

Vrata is a reverse proxy with a control plane and a Kubernetes controller. This project models its
hardest self-contained algorithms and protocols in Dafny and proves what they promise, for all inputs,
all runs and all interleavings. `dafny verify dfyconfig.toml` checks everything.

| module | what it models |
|---|---|
| `Primes`, `Maglev` | the Maglev lookup table: for which sizes and skips the filling ends, that it equals "in turn, take the first free slot of your own permutation", and the exact share of every destination |
| `Ring` | the weighted hash ring of destination pinning: minimal movement, independence of order, skipping against rebuilding, the health filter |
| `RingHash` | the unweighted ring balancer: when adding a destination leaves the others' keys alone |
| `WeightedChoice` | weighted random choice in `uint32` arithmetic: how many residues and how many draws select each position |
| `Propagation` | store commits, non-blocking publishing into 32-slot channels, and the gateway's rebuild, as one interleaved step relation |
| `RateLimit` | the token bucket over real time, with eviction running at arbitrary moments |
| `Circuit`, `CircuitAtomic` | the circuit breaker, once over traces of method calls and once over single atomic operations of any number of goroutines |
| `Reconciler`, `Controller` | destination reference counts, on values and as the code that keeps them while any API call may fail, lose its answer, or find the server changed |
| `Der` | conversion of a JWS signature (section 3.4 of RFC 7518) to the DER `ECDSA-Sig-Value` (section 2.2.3 of RFC 3279), against a strict decoder |
| `JsonEscape` | escaping of secret values, against the string grammar of section 7 of RFC 8259 |
| `Overlap`, `Traffic`, `Dedup` | the route overlap test, against three definitions of what a path matcher selects and against whole requests, and the detector that applies it |
| `WorkQueue` | the controller's work queue and reconcile cycles: which routes the detector ever sees together |
| `SwapTable` | replacement of the routing table and its cleanup functions under concurrent calls |
| `Basics` | optional values, 32-bit words and facts about collections that the others share |

Code that updates state in place is a class or a method with loops, proved against functions on values;
the theorems are about those functions. Protocols are step relations, and their theorems speak of every
state of every run. Hash functions, the clock, random draws, case mappings and API failures are
parameters, so the results hold for all of them.

## Where the code and its promise differ

Each difference is stated as an exact condition on the input or the state.

- A failed rebuild is not retried, and restoring the store from a snapshot is not announced: the gateway stays behind
  until the next event (`Propagation.CatchesUpIff`, `Propagation.FailedRebuildIsStuck`, `Propagation.RestoreIsStuck`).
- The overlap documentation (docs/website/content/docs/clients/controller/overlap-detection.md) promises that two
  routes for the same traffic are detected. A cycle resets the detector and reconciles one queue item, so routes are
  compared only within one batch, and routes without a batch annotation never (`WorkQueue.RunReports`,
  `WorkQueue.ListedTogetherReported`, `WorkQueue.ReportedOnlyWithinBatch`, `WorkQueue.SinglesUnreported`).
- The set of known single routes is never cleared, so a route without a batch annotation is reconciled once and
  later changes to it are not (`WorkQueue.SinglesOnce`).
- Adding a destination to the ring balancer may take nodes from all others, and then moves keys between them
  (`RingHash.AddedAttracts`, `RingHash.ShrinkingMovesKeys`).
- "Every proxy produces the same result" needs a ring without hash collisions between destinations, since
  the sort is not stable (`Ring.PicksAgreeIffCollisionFree`, `Ring.CollisionDisagrees`).
- "Ring space proportional to its weight" fails next to a weight of zero, which gets one node (`Ring.ProportionalIff`).
- Weights whose sum reaches 2^32 lose their proportions, and can make the remainder divide by zero
  (`WeightedChoice.ExactSharesIffNoOverflow`, `WeightedChoice.WrappedTotal`).
- A table size that is not prime may keep `Build` from ever returning: with one destination exactly when its skip
  shares a divisor with the size (`Maglev.SingleFillsIffCoprime`).
- A rate below one request per second without a burst refuses everything (`RateLimit.RefusesEverythingIff`).
- The half-open counter wraps after 2^31 refused requests and admits a second probe
  (`Circuit.FloodIsGranted`, `CircuitAtomic.WrapBreaksTheBound`).
- Under concurrency the circuit can be left closed at the threshold by a late store
  (`CircuitAtomic.AgreesIffTimely`, `CircuitAtomic.LateCloseDisagrees`).
- A failed `Init` is only logged, and the records it would have rebuilt are missing: a destination shared with an old
  route can be deleted under it (`Reconciler.FailedRestartIsUnsafe`).
- A lost answer to `DeleteRoute` makes counts too high once the route is created again, so that a destination
  can be kept that nothing uses (`Reconciler.LostDeleteThenCreate`).
- Updating a route does not refresh its recorded destinations, so a destination can be deleted while
  referenced (`Reconciler.UpdateKeepsSyncIff`, `Reconciler.UnrecordedUpdateIsUnsafe`).
- DER output of 128 or more bytes carries a wrong length, which every full-length P-521 signature meets
  (`Der.ConversionCorrectIff`, `Der.FullP521Rejected`).
- Control characters other than newline, carriage return and tab are not escaped
  (`JsonEscape.RoundTripIffHandled`).
- The overlap test looks for segment boundaries and the router does not, so a prefix that stops inside a
  segment collides unreported, as do an empty exact pattern, which the router takes for `/`, and a type that is not
  compared (`Overlap.RouterSharesIff`); and `/api/` is not held to cover exact `/api`
  (`Overlap.PathsOverlapIffElements`).
- Routes with different header matchers, or one on `*` and one on a single host, are held to target different
  traffic; they may share requests in the router, as may prefixes that stop inside a segment
  (`Traffic.MissedTrafficIff`).

## Model

| member | source | states |
|---|---|---|
| Primes.SlotFormula | server/internal/proxy/balancer.go:237-257 | Advancing by the skip modulo the size visits `(offset + j * skip) mod M` at step `j` |
| Primes.Bezout | server/internal/proxy/balancer.go:233-234 | Euclid: a skip and a size without a common divisor combine to 1 |
| Primes.CoprimeDividesFactor | server/internal/proxy/balancer.go:246-249 | A size that divides a multiple of a coprime skip divides the multiplier |
| Primes.SlotsDistinct | server/internal/proxy/balancer.go:246-249 | With a skip coprime to the size two steps of one cycle are at different slots |
| Primes.SlotPeriod | server/internal/proxy/balancer.go:246-249 | A walk repeats itself after one cycle |
| Primes.WalkReaches | server/internal/proxy/balancer.go:246-249 | One cycle of such a walk reaches every slot: it is a permutation |
| Primes.ReachesEverySlotIffCoprime | server/internal/proxy/balancer.go:246-249 | A walk reaches every slot if and only if its skip is coprime to the size |
| Primes.EveryWalkReachesEverySlotIffPrime | server/internal/model/destination.go:237-239 | For every size of at least 2, all walks reach all slots if and only if the size is prime, the documented requirement |
| Primes.DefaultTableSizePrime | server/internal/proxy/balancer.go:199-204 | The default table size 65537 is prime |
| Maglev.ClaimFirstFree | server/internal/proxy/balancer.go:245-251 | A turn writes the destination into the first slot of its walk that is free, and nowhere else |
| Maglev.FirstFreeExists | server/internal/proxy/balancer.go:245-249 | A probe that meets a free slot within one cycle has a first one: the probe loop ends there |
| Maglev.ProbeEndsIffMeets | server/internal/proxy/balancer.go:246-249 | A probe ends at all if and only if it meets a free slot within one cycle |
| Maglev.ClaimCounts | server/internal/proxy/balancer.go:245-252 | A turn turns exactly one free slot into a slot of its destination and keeps every other count |
| Maglev.FreeSlots | server/internal/proxy/balancer.go:242-257 | As long as every turn meets a free slot, exactly `M - k` slots are free after `k` turns |
| Maglev.CoprimeFills | server/internal/proxy/balancer.go:237-257 | For any size, skips coprime to it fill the table |
| Maglev.PrimeFills | server/internal/proxy/balancer.go:237-257 | A prime size fills the table for every list of destinations |
| Maglev.SingleFillsIffCoprime | server/internal/proxy/balancer.go:237-257 | A single destination fills the table if and only if its skip is coprime to the size; otherwise `Build` never returns |
| Maglev.SlotsOwned | server/internal/proxy/balancer.go:237-257 | At every moment of the filling each destination owns exactly as many slots as it had turns |
| Maglev.ShareQuotient | server/internal/proxy/balancer.go:237-257 | Of `M` turns in rotation, destination `i` has `M / n`, plus one when `i < M mod n` |
| Maglev.ExactShares | server/internal/proxy/balancer.go:237-257 | In the finished table destination `i` owns exactly `M / n` slots, plus one when `i < M mod n`; any two shares differ by at most one |
| Maglev.FullTable | server/internal/proxy/balancer.go:237-259 | Every entry of the finished table is an index of a destination |
| Maglev.MaglevBalancer.constructor | server/internal/proxy/balancer.go:199-204 | A size of zero or less selects the default, which is prime |
| Maglev.MaglevBalancer.Build | server/internal/proxy/balancer.go:207-260 | Whenever every turn meets a free slot, so for every list with a prime size, `Build` terminates, and every slot is taken in one of `M` turns: turn `k` is destination `k mod n`'s, and takes the first slot not taken before it among `(low mod M + j * (high mod (M - 1) + 1)) mod M`, where `low` and `high` are the halves of its digest; with a single slot it panics |
| Maglev.TurnsInOrder | server/internal/proxy/balancer.go:237-257 | The slots of the turns so far are distinct, in order, and each the first untaken one of its walk |
| Maglev.MaglevBalancer.TurnsFillTable | server/internal/proxy/balancer.go:226-257 | The same for the walks that the digests of a list give |
| Maglev.MaglevBalancer.Fill | server/internal/proxy/balancer.go:237-257 | The filling loops compute the table of `M` turns |
| Maglev.MaglevBalancer.Round | server/internal/proxy/balancer.go:244-256 | One pass over the destinations advances the table by the turns it took and stops when the table is full |
| Maglev.MaglevBalancer.NextTurn | server/internal/proxy/balancer.go:244-252 | The next turn of the rotation |
| Maglev.MaglevBalancer.TakeTurn | server/internal/proxy/balancer.go:245-251 | Resuming a walk at its saved position claims the same slot as probing it from the start |
| Maglev.MaglevBalancer.PickByHash | server/internal/proxy/balancer.go:268-281 | After a `Build` over a non-empty list the lookup is `table[h mod uint32(M)]`, always a listed destination, or a division by zero when 2^32 divides the size; over an empty list it is the fallback |
| Ring.InAllNodes | server/internal/proxy/pinning.go:41-54 | A node is on the ring exactly when the weight of a listed destination gives it that virtual node |
| Ring.BuildDestinationRing | server/internal/proxy/pinning.go:36-61 | The result is a sorted arrangement of exactly the nodes `id:0`, `id:1`, and so on of the listed destinations, a hundred for each unit of weight and one for weight zero; every destination has as many as it is due |
| Ring.NodesByWeight | server/internal/proxy/pinning.go:42-55 | The number of nodes, in all and for each identifier, is the sum of what the weights are due |
| Ring.RingByWeight | server/internal/proxy/pinning.go:36-61 | The same for every sorted arrangement |
| Ring.ProportionalIff | server/internal/proxy/pinning.go:13-14 | The nodes of two destinations are in proportion to their weights if and only if both or neither have weight zero |
| Ring.Search | server/internal/proxy/pinning.go:70-72 | The binary search returns the first index whose hash is at least the key |
| Ring.Pick | server/internal/proxy/pinning.go:65-77 | The answer is the destination of the next node clockwise, at the least clockwise distance from the key; empty for an empty ring |
| Ring.PickValid | server/internal/proxy/pinning.go:82-102 | The bounded walk with wrap-around answers as `Pick` on the ring that keeps only the nodes of valid destinations |
| Ring.SuccessorIsNearest | server/internal/proxy/pinning.go:65-77 | The lookup finds a node at the least clockwise distance |
| Ring.NearestUnique | server/internal/proxy/pinning.go:65-77 | Without collisions between destinations the nearest destination is unique |
| Ring.AddedNodesOnlyAttract | server/internal/proxy/pinning.go:18-22 | Adding nodes to a ring moves a key only to a destination that gained a node |
| Ring.RaisingWeightAttracts | server/internal/proxy/pinning.go:18-22 | Raising one weight moves keys only to that destination |
| Ring.LoweringWeightReleases | server/internal/proxy/pinning.go:18-22 | Lowering one weight moves only keys that were on that destination |
| Ring.OrderIrrelevant | server/internal/proxy/pinning.go:15-16 | The answer does not depend on the order of the destination list |
| Ring.PicksAgreeIffCollisionFree | server/internal/proxy/pinning.go:15-16 | For a given list, all sorted arrangements give all keys the same answer if and only if no two virtual nodes of different destinations share a hash |
| Ring.CollisionDisagrees | server/internal/proxy/pinning.go:56-58 | Two destinations whose first virtual nodes hash alike: two sorted arrangements that answer differently |
| Ring.SkippingIsRebuilding | server/internal/proxy/pinning.go:82-102 | Skipping invalid destinations on the full ring answers as `Pick` on a ring rebuilt from the valid ones only |
| Ring.FilterHealthyPools | server/internal/proxy/handler.go:651-666 | The result is, in order, exactly the listed destinations whose pool has a healthy endpoint |
| Ring.HealthyInOrder | server/internal/proxy/handler.go:651-666 | They keep their order and multiplicity |
| Ring.PinnedIsHealthy | server/internal/proxy/handler.go:552-593 | With a healthy destination in the list, the destination found on the ring is healthy and listed, and is the one a ring of the healthy destinations gives |
| Ring.PickPinned | server/internal/proxy/handler.go:583-592 | A pinned destination is healthy and listed; the fallback is taken only for a healthy destination with an empty identifier |
| Ring.Itoa | server/internal/proxy/pinning.go:104-117 | The digit loop and the in-place reversal print the decimal form |
| Ring.Reverse | server/internal/proxy/pinning.go:113-115 | Swapping the ends inwards reverses the digits |
| Ring.DecimalRoundTrip | server/internal/proxy/pinning.go:104-117 | Reading the printed digits gives the number back, and only zero begins with a zero |
| Ring.VnodeKeysDistinct | server/internal/proxy/pinning.go:48-48 | Different virtual nodes have different hash keys |
| RingHash.InUniformNodes | server/internal/proxy/balancer.go:149-160 | A node is there exactly when it is one of the first `ringSize / n` nodes, at least one, of a listed destination |
| RingHash.RingHashBalancer.constructor | server/internal/proxy/balancer.go:126-138 | The smaller of the two sizes, with their defaults |
| RingHash.RingHashBalancer.Build | server/internal/proxy/balancer.go:141-165 | The ring is a sorted arrangement of exactly the nodes `id:k` with `k` below `ringSize / n`, at least one, for each listed destination; empty for an empty list |
| RingHash.RingHashBalancer.CollectNodes | server/internal/proxy/balancer.go:154-160 | The nodes of all destinations |
| RingHash.UniformRing | server/internal/proxy/balancer.go:149-160 | Members and number of the nodes of every such arrangement |
| RingHash.RingHashBalancer.AppendNodes | server/internal/proxy/balancer.go:155-159 | The nodes of one destination |
| RingHash.RingHashBalancer.PickByHash | server/internal/proxy/balancer.go:173-188 | The next node clockwise; the fallback on an empty ring |
| RingHash.AddedAttracts | server/internal/proxy/balancer.go:149-152 | While the number of nodes per destination stays the same and no hashes collide, a destination added to a non-empty list attracts keys only to itself |
| RingHash.ShrinkingMovesKeys | server/internal/proxy/balancer.go:149-152 | Once it drops, whatever is added, there is a hash function under which a key moves from one old destination to another, for any two of them |
| RingHash.ShrinkingExample | server/internal/proxy/balancer.go:149-152 | Four nodes shared by two destinations and then by three |
| Propagation.SubsKept | server/internal/store/bolt/bolt.go:833-869 | Every step keeps the subscriber list free of duplicates, equal to the open subscriptions, and the publisher off closed channels |
| Propagation.StreamsKept | server/internal/store/bolt/bolt.go:858-869 | Every step keeps every stream equal to the published events less those that met a full channel |
| Propagation.FreshKept | server/internal/gateway/gateway.go:55-173 | Every step keeps it true that each kind the gateway holds is current, still to be read, or will be re-read because an event is due |
| Propagation.RunKeepsInv | server/internal/store/bolt/bolt.go:833-869 | The three invariants hold in every state of every run |
| Propagation.UnannouncedIff | server/internal/store/bolt/bolt.go:977-1008 | The store counts as restored silently exactly when a restore is the last of the restores, commits and beginnings of a rebuild |
| Propagation.StoreIsWritten | server/internal/store/bolt/bolt.go:185-203 | In every run the store holds under each kind and identifier what the last commit saved or deleted there, or a later restore put there |
| Propagation.PublishedIsAnnounced | server/internal/store/bolt/bolt.go:858-869 | In every run the published events are, in order, those of the last commits of the writers that began to publish |
| Propagation.QuietGatewayIsCurrent | server/internal/gateway/gateway.go:55-137 | In every interleaving, when no writer is between commit and publish, the gateway channel is empty and the gateway is idle after a successful rebuild, the applied configuration equals the store for all five kinds, and holds under each identifier what was last written there, although full channels drop events and the five reads are separate, unless the store was restored silently |
| Propagation.SubscriptionsSafe | server/internal/store/bolt/bolt.go:833-854 | In every interleaving no event is sent on a closed channel and the subscriber list has no duplicates |
| Propagation.NeverBlocks | server/internal/store/bolt/bolt.go:856-869 | In every run an idle writer can commit, a committed one can begin to publish once the lock is free, and the publishing one can go on, however slow the subscribers are |
| Propagation.StreamsAreFaithful | server/internal/store/bolt/bolt.go:858-869 | In every interleaving a subscriber gets, in order, the events published since it subscribed, with gaps only where 32 events were already queued |
| Propagation.RebuildKeepsView | server/internal/gateway/gateway.go:94-173 | The steps of a rebuild in progress make nothing stale and nothing fresh that was not |
| Propagation.CatchUp | server/internal/gateway/gateway.go:55-137 | From a quiet state with an event queued or nothing stale, the gateway alone comes to rest with the current configuration |
| Propagation.StaysBehind | server/internal/gateway/gateway.go:55-137 | With no event queued and something stale, no sequence of its own steps brings it there |
| Propagation.CatchesUpIff | server/internal/gateway/gateway.go:75-91 | From a quiet state the gateway can catch up if and only if an event is queued or nothing it holds is stale; it cannot only after a failed rebuild or a silent restore |
| Propagation.FailedRebuildIsStuck | server/internal/gateway/gateway.go:63-68 | From any non-empty store there is a run in which the first rebuild fails and the gateway alone never catches up |
| Propagation.RestoreIsStuck | server/internal/store/bolt/bolt.go:977-1008 | For any restore that changes the store there is a run in which the gateway had caught up, waits, and never catches up with it |
| RateLimit.TokenBucketLimiter.constructor | server/internal/proxy/middlewares/ratelimit.go:105-120 | Non-positive settings select the defaults: 10 requests per second, and the whole part of the rate as burst |
| RateLimit.TokenBucketLimiter.Allow | server/internal/proxy/middlewares/ratelimit.go:122-145 | Refill since the last request, capped at the burst, then take one token or refuse; other clients are untouched |
| RateLimit.TokenBucketLimiter.EvictStale | server/internal/proxy/middlewares/ratelimit.go:160-173 | A bucket stays if and only if its idle time times the rate is at most twice the burst; the others are untouched |
| RateLimit.StaleIsFull | server/internal/proxy/middlewares/ratelimit.go:160-173 | A bucket that is evicted would have been full again |
| RateLimit.RunsSimulate | server/internal/proxy/middlewares/ratelimit.go:122-173 | Throughout every run the limiter with eviction is the one without, less buckets that are full |
| RateLimit.EvictionUnobservable | server/internal/proxy/middlewares/ratelimit.go:160-173 | Every request of every run with evictions at arbitrary times is answered as in the same run without eviction |
| RateLimit.EvictionKeepsCounts | server/internal/proxy/middlewares/ratelimit.go:160-173 | Every window grants as many requests with eviction as without |
| RateLimit.AvailableIsLeastRoom | server/internal/proxy/middlewares/ratelimit.go:122-145 | The tokens of a client are the least, over its earlier requests, of burst plus refill since then less grants since then |
| RateLimit.GrantedIffWithinEveryWindow | server/internal/proxy/middlewares/ratelimit.go:122-145 | A request is granted if and only if from every earlier request of that client on, the grants plus one are at most `burst + rps * elapsed` |
| RateLimit.WindowBound | server/internal/proxy/middlewares/ratelimit.go:122-145 | No time window admits more than `burst + rps * length` requests of a client |
| RateLimit.GrantsSomethingIffBurst | server/internal/proxy/middlewares/ratelimit.go:135-144 | Some run grants some request if and only if the burst is at least 1 |
| RateLimit.RefusesEverythingIff | server/internal/proxy/middlewares/ratelimit.go:105-111 | Settings refuse every request of every run if and only if the rate lies between 0 and 1 and no burst is set |
| Circuit.CircuitBreaker.constructor | server/internal/proxy/circuit.go:52-83 | Zero limits and threshold select 1024, 3 and 5, a missing or invalid duration 30 seconds; the circuit starts closed |
| Circuit.CircuitBreaker.AllowRequest | server/internal/proxy/circuit.go:86-114 | The answer and the new fields in each of the three states |
| Circuit.CircuitBreaker.RecordSuccess | server/internal/proxy/circuit.go:117-120 | Failures are reset and the circuit closes |
| Circuit.CircuitBreaker.RecordFailure | server/internal/proxy/circuit.go:123-131 | One more failure, and the circuit opens at the threshold |
| Circuit.CircuitBreaker.RequestStarted | server/internal/proxy/circuit.go:134-137 | Both gauges grow by one |
| Circuit.CircuitBreaker.RequestCompleted | server/internal/proxy/circuit.go:140-143 | Both gauges shrink by one |
| Circuit.StateFromTrace | server/internal/proxy/circuit.go:86-143 | All fields after any trace of calls, read off the trace alone; both gauges are starts less completions |
| Circuit.ClosedIffFewFailures | server/internal/proxy/circuit.go:117-131 | After every trace the circuit is closed if and only if the trailing run of failures is below the threshold |
| Circuit.ClosedGrants | server/internal/proxy/circuit.go:106-113 | While closed a request is granted if and only if fewer requests are in flight than both limits |
| Circuit.ProbeGrants | server/internal/proxy/circuit.go:86-104 | While not closed, a call is granted if and only if it is overdue or follows an overdue one, and the 32-bit counter of such calls reads as non-negative |
| Circuit.SingleProbe | server/internal/proxy/circuit.go:22-23 | For up to 2^31 calls after the latest outcome only the first overdue call is granted, more than `openDuration` after the latest failure |
| Circuit.FloodIsGranted | server/internal/proxy/circuit.go:98-103 | One call later the counter wraps and a second probe is granted without an outcome |
| Circuit.ProbeOutcome | server/internal/proxy/circuit.go:116-131 | One failure while open or half open opens the circuit until `openDuration` has passed; one success closes it |
| CircuitAtomic.InvKept | server/internal/proxy/circuit.go:86-131 | Every atomic operation of any goroutine keeps admissions within stores of the counter, and stores within swaps |
| CircuitAtomic.RunKeepsInv | server/internal/proxy/circuit.go:86-131 | That holds in every state of every interleaving in which the counter has not wrapped |
| CircuitAtomic.ProbesBoundedBySwaps | server/internal/proxy/circuit.go:89-104 | With any number of goroutines the requests admitted while open or half open never exceed the successful swaps from open to half open |
| CircuitAtomic.ReachRefused | server/internal/proxy/circuit.go:95-103 | Every number of refused decrements up to 2^31 is reached by a run in which the counter has not wrapped |
| CircuitAtomic.WrapBreaksTheBound | server/internal/proxy/circuit.go:98-103 | The bound is exact: the very next decrement admits a second request on one swap |
| CircuitAtomic.AgreesIffTimely | server/internal/proxy/circuit.go:117-131 | In every settled state of every interleaving the circuit is closed exactly below the threshold if and only if the last store of Closed or Open still agreed with the failure count |
| CircuitAtomic.LateCloseDisagrees | server/internal/proxy/circuit.go:117-131 | A success whose store comes after the failures that opened the circuit leaves it closed at the threshold with nothing in flight |
| CircuitAtomic.ProbesConserved | server/internal/proxy/circuit.go:86-106 | In every interleaving each `Allow` that found the circuit not closed is in flight, was turned away too early, or has decremented the counter once |
| CircuitAtomic.AloneIsNext | server/internal/proxy/circuit.go:86-131 | The atomic operations of one call taken without interruption do what the method does, and admit exactly what it grants |
| CircuitAtomic.SerialIsTrace | server/internal/proxy/circuit.go:86-131 | Every trace of calls is an interleaving of the atomic operations that ends in the same state |
| Reconciler.IncrementAllCounts | clients/controller/internal/reconciler/reconciler.go:45-47 | Incrementing a list adds each name's multiplicity to its count |
| Reconciler.DecrementAllCounts | clients/controller/internal/reconciler/reconciler.go:50-57 | Decrementing a list takes each name's multiplicity from its count and leaves no zero entry |
| Reconciler.RecordingKeepsBooksIff | clients/controller/internal/reconciler/reconciler.go:224-228 | Recording a created route keeps counts equal to recorded multiplicities if and only if nothing was recorded under its name |
| Reconciler.RecordingKeepsAtLeast | clients/controller/internal/reconciler/reconciler.go:224-228 | Recording a route never leaves a destination counted less often than recorded |
| Reconciler.AddRouteKeepsBooks | clients/controller/internal/reconciler/reconciler.go:218-229 | Creating a route keeps counts at or above the recorded multiplicities, and exact if they were exact with every recorded route on the server |
| Reconciler.AddRouteKeepsSync | clients/controller/internal/reconciler/reconciler.go:218-229 | Creating a route over its recorded destinations keeps every owned route covered by the records |
| Reconciler.UpdateKeepsSyncIff | clients/controller/internal/reconciler/reconciler.go:230-237 | Updating an owned route keeps it covered if and only if its new references are within what is recorded for it |
| Reconciler.RemoveRouteKeepsBooks | clients/controller/internal/reconciler/reconciler.go:280-290 | Deleting a route, uncounting and forgetting it keeps counts at or above the recorded multiplicities, and exact if they were exact |
| Reconciler.RemoveRouteKeepsSync | clients/controller/internal/reconciler/reconciler.go:280-290 | Deleting a route keeps every other owned route covered and clear of deleted destinations |
| Reconciler.UncountedIsUnreferenced | clients/controller/internal/reconciler/reconciler.go:324-327 | A destination whose count is zero is referenced by no owned route |
| Reconciler.RemoveDestinationKeepsBooks | clients/controller/internal/reconciler/reconciler.go:328-334 | Deleting a destination keeps counts at or above the recorded multiplicities, and exact if they were exact |
| Reconciler.RemoveDestinationKeepsSync | clients/controller/internal/reconciler/reconciler.go:324-334 | Deleting a destination with count zero leaves no owned route referencing a deleted destination |
| Reconciler.StaleRoutesGone | clients/controller/internal/reconciler/reconciler.go:272-291 | The stale phase deletes exactly the owned routes under the prefix that are not desired |
| Reconciler.StaleRoutesForgotten | clients/controller/internal/reconciler/reconciler.go:287-290 | The stale phase forgets exactly the records of the stale routes and leaves every other as it was |
| Reconciler.StaleNamesUsed | clients/controller/internal/reconciler/reconciler.go:280-281 | The destinations to check are exactly those recorded for the stale routes |
| Reconciler.UncountedGone | clients/controller/internal/reconciler/reconciler.go:323-338 | The destination phase deletes exactly the first listed destination of each checked name with count zero |
| Reconciler.CollectedServer | clients/controller/internal/reconciler/reconciler.go:263-338 | After both deletion phases exactly the stale routes, their records, and the destinations recorded for them with count zero are gone |
| Reconciler.OwnedIff | clients/controller/internal/mapper/mapper.go:337-339 | An entity is owned if and only if its name is `k8s:` followed by anything |
| Reconciler.ResolvedRefers | clients/controller/internal/reconciler/reconciler.go:569-591 | A route refers to the identifiers of its destinations, one for each and in order |
| Reconciler.MissingAdded | clients/controller/internal/reconciler/reconciler.go:165-184 | The destinations are the old ones and one for each mentioned name that none had |
| Reconciler.ApplyRoutesUpserts | clients/controller/internal/reconciler/reconciler.go:211-238 | Every old route is updated in place if mapped and otherwise untouched, every mapping whose name was not on the server has a new route, and exactly the new ones are recorded, with all destinations of the mapping |
| Reconciler.UpsertedServer | clients/controller/internal/reconciler/reconciler.go:161-238 | Both for the phases before the deletions |
| Reconciler.ReconciledServer | clients/controller/internal/reconciler/reconciler.go:161-341 | After a successful `ApplyHTTPRoute` the server holds every mapped route, which refers to the identifiers of its destinations in order, no other owned route under the group, and everything that was not collected |
| Reconciler.UnrecordedUpdateIsUnsafe | clients/controller/internal/reconciler/reconciler.go:230-237 | Without the hypothesis on updates: an update that moves a route to another destination lets that destination be deleted under it |
| Reconciler.FailedRestartIsUnsafe | clients/controller/cmd/controller/main.go:157-160 | Going on after a failed `Init`: a second route to a destination is created and deleted, and the destination is deleted under the first |
| Reconciler.ToleratedKeepsBooks | clients/controller/internal/mapper/mapper.go:337-339 | A change by others that leaves the recorded routes on the server leaves the counts exact |
| Reconciler.HandsOffKeepsSync | clients/controller/internal/mapper/mapper.go:337-339 | Others that keep off owned routes and the destinations they reference leave every owned route covered and clear of deleted destinations |
| Reconciler.LostCreateKeepsBooks | clients/controller/internal/reconciler/reconciler.go:219-228 | A lost answer to `CreateRoute` keeps the counts right, with the new route uncovered |
| Reconciler.LoseRouteKeeps | clients/controller/internal/reconciler/reconciler.go:282-290 | A route that disappears unknown to the reconciler leaves every destination counted at least as often as recorded, and every owned route clear of deleted destinations |
| Reconciler.LostDeleteThenCreate | clients/controller/internal/reconciler/reconciler.go:282-290 | After a lost answer to `DeleteRoute` the counts are exact; when the route is created again they stay so if and only if nothing was recorded for it, and are otherwise too high |
| Reconciler.LostDeleteExample | clients/controller/internal/reconciler/reconciler.go:282-290 | A route lost and created again counts its destination twice for one record |
| Controller.Controller.constructor | clients/controller/internal/reconciler/reconciler.go:99-106 | A new reconciler has no counts and no records, and its books are in order |
| Controller.Controller.EnsureDestination | clients/controller/internal/reconciler/reconciler.go:166-184 | Creates one destination if it is missing, keeping the invariants whether or not the call fails or its answer is lost |
| Controller.Controller.EnsureDestinations | clients/controller/internal/reconciler/reconciler.go:165-184 | Creates the missing destinations, keeping the invariants whichever call fails |
| Controller.Controller.ResolveDestinationIDs | clients/controller/internal/reconciler/reconciler.go:523-542 | The identifier of the last listed destination of every name; an error if and only if the listing fails or a name has none |
| Controller.Controller.IndexByName | clients/controller/internal/reconciler/reconciler.go:528-531 | Of several destinations of one name the last listed counts |
| Controller.Controller.PickIds | clients/controller/internal/reconciler/reconciler.go:532-541 | One identifier for each name, or an error if and only if one is missing |
| Controller.ReconciledApplies | clients/controller/internal/reconciler/reconciler.go:161-341 | What all phases of a successful `ApplyHTTPRoute` do, one after the other |
| Controller.Controller.ReconcileRoute | clients/controller/internal/reconciler/reconciler.go:212-238 | Creates and records a route or updates it; a failed call changes nothing, or the server alone when its answer is lost |
| Controller.Controller.ReconcileRoutes | clients/controller/internal/reconciler/reconciler.go:211-238 | The route phase, with the invariants kept at every failure |
| Controller.Controller.DeleteRoute | clients/controller/internal/reconciler/reconciler.go:280-290 | Deletes, uncounts and forgets one route; a failed call changes nothing, or removes the route alone when its answer is lost |
| Controller.Controller.DeleteIfStale | clients/controller/internal/reconciler/reconciler.go:273-290 | One turn of the stale loop advances the stale phase by one listed route |
| Controller.Controller.DeleteRoutes | clients/controller/internal/reconciler/reconciler.go:268-291 | The stale loop over the listing made before it computes the stale phase |
| Controller.Controller.DeleteIfUncounted | clients/controller/internal/reconciler/reconciler.go:325-336 | One turn of the destination loop |
| Controller.Controller.DeleteUncounted | clients/controller/internal/reconciler/reconciler.go:318-338 | The destination phase, with the invariants kept at every failure |
| Controller.Controller.CollectStale | clients/controller/internal/reconciler/reconciler.go:263-338 | Both deletion phases one after the other |
| Controller.Controller.UpsertRoutes | clients/controller/internal/reconciler/reconciler.go:165-238 | The destination, resolution and route phases one after the other |
| Controller.Controller.ApplyHTTPRoute | clients/controller/internal/reconciler/reconciler.go:161-341 | With a failure at any call, before or after it takes effect, no destination is counted less often than recorded, counts stay exact if no answer to `DeleteRoute` is lost, and owned routes stay clear of deleted destinations if updates stay within the records and no answer to `CreateRoute` is lost; on success each missing destination was created once, each mapped route exists and refers to its destinations in order, old routes were updated in place or untouched, exactly the new ones were recorded, and exactly the stale ones, with their uncounted destinations, are gone |
| Controller.Controller.DeleteHTTPRoute | clients/controller/internal/reconciler/reconciler.go:346-422 | The same for deletion; on success exactly the owned routes under `k8s:namespace/name/`, their records and their uncounted destinations are gone |
| Controller.Controller.Init | clients/controller/internal/reconciler/reconciler.go:115-156 | On success exactly the owned routes are recorded, each with the names of its live references in order and with their multiplicity, and the books are in order; on failure nothing changes |
| Controller.LiveInOrder | clients/controller/internal/reconciler/reconciler.go:139-145 | The live names keep the order and multiplicity of the references |
| Controller.UnansweredKeeps | clients/controller/internal/reconciler/reconciler.go:212-238 | A route call whose answer is lost keeps the books, and for an update is the same as a successful one |
| Controller.Interfere | clients/controller/internal/mapper/mapper.go:337-339 | Any sane change that others make to the server between operations |
| Controller.OperateExternal | clients/controller/internal/mapper/mapper.go:337-339 | Such a change leads to a state that may follow |
| Controller.Operate | clients/controller/internal/reconciler/reconciler.go:115-422 | Any one operation, successful or not, or change by others, leads to a state that may follow |
| Controller.Run | clients/controller/internal/reconciler/reconciler.go:115-422 | In every run of the operations, with failures and lost answers at any calls and changes by others in between, no destination is counted less often than recorded; the counts are exact from an exact state or a successful `Init` on, as long as no answer to `DeleteRoute` is lost and recorded routes are left on the server; and from a state in step, or a successful `Init` on a clean server, no deleted destination is referenced by an owned route as long as updates stay within the records, others keep off what is owned, and no answer to `CreateRoute` is lost |
| Controller.StaysBooked | clients/controller/internal/reconciler/reconciler.go:161-422 | The induction behind the exact counts |
| Controller.StaysInStep | clients/controller/internal/reconciler/reconciler.go:161-422 | The induction behind safety: permitted steps keep the records in step |
| Controller.RunStays | clients/controller/internal/reconciler/reconciler.go:115-422 | Both, for all pairs of states of a run |
| Der.BytesRoundTrip | server/internal/proxy/middlewares/jwt.go:266-269 | The shortest big-endian form keeps the value and has no leading zero |
| Der.DecodeShort | server/internal/proxy/middlewares/jwt.go:258-282 | With a body below 128 bytes a strict DER decoder gives back exactly the two integers, and rejects a zero component |
| Der.DecodeLong | server/internal/proxy/middlewares/jwt.go:276-281 | With a longer body the single length byte makes the output undecodable |
| Der.ConversionCorrectIff | server/internal/proxy/middlewares/jwt.go:258-282 | For every signature of a curve of up to 528 bits the decoded output is the pair of big-endian integers of its halves if and only if both are non-zero and the body is below 128 bytes |
| Der.SmallCurvesCorrect | server/internal/proxy/middlewares/jwt.go:258-282 | For P-256 and P-384 every signature with non-zero components converts correctly |
| Der.FullP521Rejected | server/internal/proxy/middlewares/jwt.go:276-281 | A P-521 signature whose components use all 66 bytes never converts to valid DER |
| Der.RefusedIff | server/internal/proxy/middlewares/jwt.go:259-262 | A signature is refused if and only if its length is not twice that of a component |
| Der.ConvertedLayout | server/internal/proxy/middlewares/jwt.go:266-282 | The output, of whatever length, is tag, length, and two tagged integers in their shortest content bytes, every length reduced to one byte |
| WeightedChoice.SelectDestination | server/internal/proxy/endpoint.go:209-240 | The loops select the first position whose cumulative weight exceeds the residue; all-zero weights draw uniformly; a total that wraps to zero divides by zero |
| WeightedChoice.WrappedIsSum | server/internal/proxy/endpoint.go:217-224 | The running `uint32` total is the sum of the weights modulo 2^32 |
| WeightedChoice.PositionIsInterval | server/internal/proxy/endpoint.go:231-239 | Without overflow a residue selects the position whose cumulative interval holds it |
| WeightedChoice.FallbackUnreachable | server/internal/proxy/endpoint.go:239-239 | For every non-zero total, wrapped or not, the final return is unreachable |
| WeightedChoice.ResiduesWithoutOverflow | server/internal/proxy/endpoint.go:217-239 | Without overflow exactly `weight_i` of the residues select position `i` |
| WeightedChoice.ExactSharesIffNoOverflow | server/internal/proxy/endpoint.go:217-239 | Every position is selected by exactly its weight of the residues if and only if the weights sum to less than 2^32 |
| WeightedChoice.ZeroWeightNeverChosen | server/internal/proxy/endpoint.go:231-239 | For every non-zero total, wrapped or not, a position of weight zero is never chosen |
| WeightedChoice.ExactDraws | server/internal/proxy/endpoint.go:231-236 | Without overflow, of `n` draws `weight * (n / total)` select a position, plus one for each of its residues below `n mod total` |
| WeightedChoice.WrappedTotal | server/internal/proxy/endpoint.go:217-231 | Two weights of 2^31 wrap to a total of zero |
| JsonEscape.EscapeConcat | server/internal/resolve/resolve.go:84-91 | Escaping distributes over concatenation |
| JsonEscape.SequentialIsSimultaneous | server/internal/resolve/resolve.go:84-91 | The five replacements in sequence equal one per-character map |
| JsonEscape.RoundTripIffHandled | server/internal/resolve/resolve.go:81-91 | Unescaping by section 7 of RFC 8259 gives the original back if and only if its only control characters below U+0020 are newline, carriage return and tab; otherwise the output is no JSON string |
| JsonEscape.BackspaceBreaks | server/internal/resolve/resolve.go:81-91 | A value with a backspace is escaped into something that is no JSON string |
| Overlap.CoversIffAtBoundary | clients/controller/internal/dedup/detector.go:231-246 | Coverage is equality or continuation at a segment boundary |
| Overlap.PathsOverlapIffShared | clients/controller/internal/dedup/detector.go:176-192 | The path test is true if and only if some path is selected by both matchers at a segment boundary, for every combination of types |
| Overlap.SplitPrefix | clients/controller/internal/dedup/detector.go:231-246 | A list of segments is a prefix of another exactly when the paths are equal or continue after a slash |
| Overlap.CoversIffElements | clients/controller/internal/dedup/detector.go:231-246 | Coverage is element-wise prefix matching, except that a pattern with a trailing slash does not cover the path without it |
| Overlap.PathsOverlapIffElements | clients/controller/internal/dedup/detector.go:176-192 | Against element-wise matching the path test misses a shared path if and only if an exact path is the prefix pattern less its trailing slash |
| Overlap.RouterSharesIffMeets | server/internal/proxy/table.go:166-184 | Some path passes the router's check of two patterns if and only if their compiled forms meet, an empty pattern being the prefix `/` |
| Overlap.RouterSharesIff | server/internal/proxy/router.go:191-206 | Every reported overlap is real in the router; the unreported ones are exactly those where a prefix stops inside a segment, an empty exact pattern stands for `/`, or the type is one that is not compared |
| Overlap.MissedExamples | clients/controller/internal/dedup/detector.go:178-246 | Prefixes `/api` and `/apikeys` collide in the router unreported, and `/api/` is not held to cover exact `/api` |
| Overlap.MethodsOverlapIffShared | clients/controller/internal/dedup/detector.go:166-174 | The method test is true if and only if some method satisfies both |
| Overlap.SortStringsSorts | clients/controller/internal/dedup/detector.go:227-227 | Sorting gives an ordered permutation |
| Overlap.SortedUnique | clients/controller/internal/dedup/detector.go:227-227 | An ordered permutation is unique |
| Overlap.SameHeadersIffSameStrings | clients/controller/internal/dedup/detector.go:194-229 | The header test compares the canonical strings as multisets |
| Overlap.CanonicalRoundTrip | clients/controller/internal/dedup/detector.go:218-229 | A canonical string determines kind, lower-cased name and value when no separator occurs in kind or name |
| Overlap.SameHeadersIffSameMatchers | clients/controller/internal/dedup/detector.go:194-213 | Equal matchers in any order always pass; without separators in kinds and names only those do |
| Overlap.SeparatorConfuses | clients/controller/internal/dedup/detector.go:215-229 | A separator inside a name makes two different matchers pass for one |
| Overlap.EntriesOverlapIffShared | clients/controller/internal/dedup/detector.go:152-164 | Two entries overlap if and only if they pass the header test and some method and path satisfy both |
| Overlap.OverlapSymmetric | clients/controller/internal/dedup/detector.go:152-192 | Overlap is symmetric |
| Traffic.SatisfiableIffConsistent | server/internal/proxy/router.go:221-236 | Some request headers meet a list of exact matchers if and only if no header is asked for two values |
| Traffic.SharedTrafficIff | server/internal/proxy/router.go:172-236 | The router serves some request by both of two entries without regular expressions if and only if hosts, compiled paths and methods meet and their header matchers together are consistent |
| Traffic.MissedTrafficIff | clients/controller/internal/dedup/detector.go:134-164 | The requests that two entries share in the router unreported: exactly when they meet there and yet hostnames or header matchers differ, the paths are among those the path test misses, or the methods differ in the detector's comparison |
| Traffic.SpuriousIff | clients/controller/internal/dedup/detector.go:152-164 | A reported pair shares no request in the router if and only if its matchers ask one header for two values or its methods differ in upper case |
| Traffic.MissedTrafficExamples | clients/controller/internal/dedup/detector.go:152-155 | Requests shared unreported: all hosts against one host, a header matcher against none, and prefix `/api` against `/apikeys` |
| Dedup.Detector.constructor | clients/controller/internal/dedup/detector.go:48-53 | A new detector holds no entries |
| Dedup.Detector.FindOverlaps | clients/controller/internal/dedup/detector.go:134-150 | The conflicts with the entries registered for the host, in order, skipping the entry's own source |
| Dedup.Detector.CheckEntry | clients/controller/internal/dedup/detector.go:93-101 | One entry: its conflicts are appended to the report and it is registered |
| Dedup.Detector.CheckMatch | clients/controller/internal/dedup/detector.go:81-102 | The loop over hostnames; regular expressions are skipped |
| Dedup.Detector.CheckRule | clients/controller/internal/dedup/detector.go:76-103 | The loop over matches, or the catch-all match of a rule without any |
| Dedup.Detector.CheckRules | clients/controller/internal/dedup/detector.go:75-104 | The loop over rules |
| Dedup.EntriesExact | clients/controller/internal/dedup/detector.go:66-92 | A route registers exactly the entries whose path, type, headers and method are those of one of its matches, or of the prefix `/` for a rule without matches, on one of its hosts, or `*` for none, except for regular expressions |
| Dedup.RulesInOrder | clients/controller/internal/dedup/detector.go:75-92 | Entries come rule by rule |
| Dedup.MatchesInOrder | clients/controller/internal/dedup/detector.go:80-92 | Within a rule they come match by match |
| Dedup.HostsInOrder | clients/controller/internal/dedup/detector.go:84-92 | Within a match they come host by host |
| Dedup.RegisteredInOrder | clients/controller/internal/dedup/detector.go:101-101 | The entries of each host are appended in order to those already there |
| Dedup.AgainstInOrder | clients/controller/internal/dedup/detector.go:134-147 | The conflicts of an entry are reported once each in the order of registration |
| Dedup.ReportInOrder | clients/controller/internal/dedup/detector.go:84-106 | What the first entries of a route conflict with is reported first |
| Dedup.KeptInOrder | clients/controller/internal/dedup/detector.go:112-117 | Removal keeps the order and multiplicity of the other entries |
| Dedup.Detector.Check | clients/controller/internal/dedup/detector.go:66-106 | All entries of the route are registered, and the report is each of them against the table as it was before the call |
| Dedup.Detector.KeepOthers | clients/controller/internal/dedup/detector.go:112-117 | Exactly the entries of other sources, in order |
| Dedup.Detector.Remove | clients/controller/internal/dedup/detector.go:109-124 | Exactly the entries of the route are gone, and hosts without entries are dropped |
| Dedup.Detector.Reset | clients/controller/internal/dedup/detector.go:128-130 | No entries are left |
| Dedup.OwnEntriesIgnored | clients/controller/internal/dedup/detector.go:84-101 | Although entries are registered one by one, none of a call's own entries takes part in its report |
| Dedup.AgainstEachMembers | clients/controller/internal/dedup/detector.go:134-150 | A pair is reported if and only if the incoming entry is the route's, the existing one was registered for its host by another source, and they overlap |
| Dedup.RegisteredThenRemoved | clients/controller/internal/dedup/detector.go:109-124 | Removing a route leaves what removing it before registration leaves |
| Dedup.RemoveUndoesCheck | clients/controller/internal/dedup/detector.go:109-124 | For a route not yet registered removal undoes registration |
| Dedup.StaysDense | clients/controller/internal/dedup/detector.go:118-122 | No host is ever listed without entries |
| Dedup.CheckedReports | clients/controller/internal/dedup/detector.go:55-106 | Routes checked one after another on an empty table: exactly the conflicting pairs on one host are reported, the earlier entry as the existing one |
| Dedup.ConflictsIgnoreOrder | clients/controller/internal/dedup/detector.go:55-106 | Which pairs are found in conflict does not depend on the order of the routes |
| WorkQueue.ParseSize | clients/controller/internal/workqueue/workqueue.go:222-235 | The number that the digits spell, or zero when another character occurs |
| WorkQueue.Queue.constructor | clients/controller/internal/workqueue/workqueue.go:120-125 | An empty queue |
| WorkQueue.Queue.Observe | clients/controller/internal/workqueue/workqueue.go:134-187 | A route without the annotation is enqueued once in the life of the queue; one with it joins the waiting batch of that name once, or starts it |
| WorkQueue.Queue.ObserveBatch | clients/controller/internal/workqueue/workqueue.go:145-187 | The batch found through the index is the first waiting one of that name; the first size seen counts |
| WorkQueue.Queue.Join | clients/controller/internal/workqueue/workqueue.go:165-186 | The group after a listed route |
| WorkQueue.Queue.FindMember | clients/controller/internal/workqueue/workqueue.go:180-184 | Whether the group has the route already |
| WorkQueue.Queue.Pop | clients/controller/internal/workqueue/workqueue.go:198-208 | The head leaves, and the index follows |
| WorkQueue.CheckMembers | clients/controller/cmd/controller/main.go:324-338 | The members of an item that can be fetched are checked in order |
| WorkQueue.Cycle | clients/controller/cmd/controller/main.go:231-343 | Reset, observe the listing, and reconcile the head when it is due |
| WorkQueue.ProcessHead | clients/controller/cmd/controller/main.go:275-343 | A single route is checked and leaves; a ready batch is checked unless it is incomplete and rejected, and leaves; another batch stays |
| WorkQueue.ObserveAll | clients/controller/cmd/controller/main.go:249-267 | The listing is observed in order |
| WorkQueue.Run | clients/controller/cmd/controller/main.go:370-385 | A run of cycles |
| WorkQueue.RunReports | clients/controller/cmd/controller/main.go:231-343 | A run reports a pair if and only if one cycle reconciles both routes as members of one batch, the earlier as the existing one, and they conflict on one host |
| WorkQueue.ReportGrows | clients/controller/cmd/controller/main.go:231-343 | What a run has reported stays, and later cycles add to it |
| WorkQueue.MemberListed | clients/controller/internal/workqueue/workqueue.go:145-186 | Every member of a reconciled batch was listed under its name |
| WorkQueue.ReportedOnlyWithinBatch | clients/controller/cmd/controller/main.go:231-343 | In every run two routes are reported against each other only if both were listed under one batch name |
| WorkQueue.ListedIsMember | clients/controller/internal/workqueue/workqueue.go:145-186 | Every route that a cycle lists under the name of the batch it reconciles is a member of that batch |
| WorkQueue.MembersReported | clients/controller/cmd/controller/main.go:324-338 | Two members of a reconciled batch that are fetched and conflict on one host are reported against each other |
| WorkQueue.ListedTogetherReported | clients/controller/cmd/controller/main.go:231-343 | In every run two routes that a cycle lists under the name of the batch it reconciles, that are fetched and conflict on one host, are reported in one order or the other |
| WorkQueue.UnbatchedNeverReported | clients/controller/cmd/controller/main.go:278-292 | Without batch annotations no run reports anything |
| WorkQueue.SinglesUnreported | clients/controller/cmd/controller/main.go:278-292 | Two routes for the same host, path and method conflict, and no run that lists them without batch annotations reports it |
| WorkQueue.SinglesOnce | clients/controller/internal/workqueue/workqueue.go:137-144 | In every run single routes reconciled in different cycles have different keys: a route without the annotation is never reconciled again |
| WorkQueue.BatchGathers | clients/controller/internal/workqueue/workqueue.go:145-186 | In every run a batch waits if and only if something was listed under its name since one last left; its members are those routes in order of first listing, its size the first non-zero one given, its time that of the latest new member |
| WorkQueue.TakenIff | clients/controller/internal/workqueue/workqueue.go:84-107 | A cycle reconciles the head of the queue if and only if it is a single route, or a batch with enough members for its size, or one without a new member for the timeout that is not to be rejected for being too few |
| WorkQueue.ObservedAppends | clients/controller/internal/workqueue/workqueue.go:131-186 | Items keep their places; a listing adds one at the end if and only if its route is not known or no batch of its name waits |
| WorkQueue.SingleQueuedOrTaken | clients/controller/internal/workqueue/workqueue.go:134-144 | In every run a route listed without a batch annotation waits or has been reconciled |
| WorkQueue.FetchedValues | clients/controller/cmd/controller/main.go:324-338 | The fetched members are checked in order |
| SwapTable.RoutingTable.AddCleanup | server/internal/proxy/router.go:42-44 | The function is appended |
| SwapTable.Router.constructor | server/internal/proxy/router.go:79-86 | The router starts with a table without cleanup functions |
| SwapTable.Router.SwapTable | server/internal/proxy/router.go:92-99 | The table is replaced and the old table's functions run in registration order |
| SwapTable.StepKeepsInv | server/internal/proxy/router.go:92-99 | Every step of concurrent calls keeps each replaced table with the one call that replaced it |
| SwapTable.RunKeepsInv | server/internal/proxy/router.go:92-99 | That holds in every state of every interleaving |
| SwapTable.FromSteps | server/internal/proxy/router.go:40-99 | Lists, calls and tables handed over of every state are those that the steps made |
| SwapTable.LiveIsLastSwapped | server/internal/proxy/router.go:92-93 | In every run the live table is that of the call that swapped last |
| SwapTable.CleanupsInOrder | server/internal/proxy/router.go:88-99 | At every moment a table's functions have run in the order in which they were registered, each at most once, and none while it is live or not yet swapped in |
| SwapTable.ReplacedTablesCleanedOnce | server/internal/proxy/router.go:88-99 | Once all calls have returned, every replaced table's functions have run exactly once in registration order and none of any other table |

## Left out

- HTTP handlers, the REST API, TLS, Redis, metrics, gRPC and configuration loading: plumbing around libraries.
- Raft consensus and peer discovery: they live in a library.
- Regular expressions, CEL and signature verification: foreign code.
- The round-robin, random and least-request balancers: they would add easy members.
- Maglev.MaglevBalancer.Build: requires that every turn meets a free slot, without which the code does not return.
- Ring.BuildDestinationRing: `sort.Slice` is specified as any sorted arrangement, and `crc32` as any function into 32 bits.
- Ring.PickPinned: does not model the cookie or the session identifier; the hash key is a parameter, and the health filter that precedes the call is part of the method.
- WeightedChoice.SelectDestination: returns the position; the pool map behind it is not modelled.
- Subscribers that filter events, the snapshot stream to remote proxies, rebuilds started by the Kubernetes watcher, and the endpoint provider are not part of `Propagation`.
- Stored values are opaque in `Propagation`; their encoding and the dump of the database are left out, and a commit that fails is no step.
- RateLimit.TokenBucketLimiter.Allow: time and tokens are real numbers; floating-point rounding and the truncation of durations are not modelled.
- RateLimit.TokenBucketLimiter.EvictStale: the ticker is a parameter, eviction may happen at any time.
- Circuit.CircuitBreaker.RecordFailure: the failure count is unbounded, not 64 bits wide.
- Circuit.SingleProbe: holds at the granularity of method calls; between the store of the state and the store of the timestamp another goroutine may see an older failure time, which `CircuitAtomic` covers by leaving the comparison's outcome free.
- Controller.Controller.ApplyHTTPRoute: groups and middlewares appear only as calls that may fail, and the number of changes is not returned.
- Controller.Run: others change the server between operations, not during one, and leave identifiers unique and owned routes with distinct names.
- Overlap.SameHeadersIffSameMatchers: the second half needs kinds without `:` and names without `=`; header names are tokens and have neither.
- Overlap.RouterSharesIff: is about the path check alone, for patterns that are not regular expressions and groups without a path prefix, as the controller makes them.
- Traffic.SharedTrafficIff: paths and header matchers are not regular expressions; query parameters, gRPC and CEL conditions, which the controller does not set, are not modelled.
- WorkQueue.ListedTogetherReported: an HTTPRoute and a SuperHTTPRoute of the same namespace and name are not both listed in batches; of such a pair only the first joins.
- WorkQueue.Run: the informer listing, the clock and the outcome of fetching a route are inputs of each cycle; a batch is never marked ready by hand, as the controller does not; sizes are unbounded; gateways and the collection of orphaned groups are left out.
- Substitution of secret references, of which `EscapeJSON` is the last step, is left out, as are log messages.
- SwapTable.ReplacedTablesCleanedOnce: tables are complete before they are handed over and none is handed over twice, as the callers do.
- Reconciler.ToleratedKeepsBooks: holds one way; a change that removes a recorded route also leaves the counts exact until the route is created again, which is `Reconciler.LostDeleteThenCreate`.
- Propagation.QuietGatewayIsCurrent: promises nothing after a restore that no event and no rebuild has followed, since the code publishes none.
