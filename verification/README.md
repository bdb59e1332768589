# Log Cache: a verified model

Log Cache keeps the latest envelopes (logs, counters, gauges, timers, events) of every source in memory. This project
models its hard core in Dafny and proves what its operations promise, over all inputs, all runs and all tree shapes:

- **The store** (`Store.dfy`, `StoreModel.dfy`, `StoreRuns.dfy`, `Truncation.dfy`, `ExpirationHeap.dfy`,
  `OldestTimestamp.dfy`): one search tree per source, keyed by timestamp plus a "fudge" of up to 4000 that separates equal
  timestamps. The class `Store` is proved to refine a store given as a value, and conservation, bounds and oldest-first
  truncation are proved for every run.
- **Reads** (`SearchTrees.dfy`, `Traversal.dfy`, `Completeness.dfy`, `Shapes.dfy`, `Ordering.dfy`, `TimeOrder.dfy`): the
  pruned recursive traversals, for every shape a balanced tree library might choose, against the filtered sorted list.
- **Concurrency** (`Interleaving.dfy`, `TruncationCrashes.dfy`, `MetaPasses.dfy`): writers, the truncation loop and reports as a
  state machine over their critical sections.
- **The cluster** (`RoutingTable.dfy`, `StaticLookup.dfy`, `ReverseProxies.dfy`, `Cluster.dfy`, `ClusterRefinement.dfy`,
  `Probing.dfy`, `MetaCaches.dfy`, `ClusterMeta.dfy`, `LocalStoreReader.dfy`): routing, splitting, lossy
  forwarding, a refinement of the whole cluster to one single store, and the staleness of the two stacked metadata caches.
- **PromQL** (`Alternatives.dfy`, `SourceIdRewriting.dfy`, `QueryRewriting.dfy`, `AuthMiddleware.dfy`, `SeriesIds.dfy`,
  `SourcedTags.dfy`, `Measurements.dfy`, `Series.dfy`): rewriting the source ids of a query, the authorization loop around
  it, and building and reading series.
- **The nozzle** (`EnvelopeBatcher.dfy`): batching with slices that share backing arrays.
- `PruneConsultant.dfy` has the amount to prune, `Divisibility.dfy` the number theory behind replicas.

`dafny verify dfyconfig.toml` checks the whole project.

## What the code does not keep

Some promises of the tests and comments hold only under a condition. The model follows the code; each has a concrete
counterexample and an exact condition.

- Tests promise that a read exceeds its limit rather than part envelopes with equal timestamps. Ascending reads can part
  them (`Ordering.BalancedTreePartsGroup`); the exact condition on an order-consistent tree is `Shapes.PartsGroupIff`. It
  depends on the shape (`Ordering.OlderEnvelopeShieldsGroup`). On such trees descending reads never do.
- Non-decreasing puts do not always keep the tree in time order: an eviction (`Ordering.EvictionBreaksOrder`) or a
  truncation far below capacity (`TimeOrder.TruncationBreaksOrder`) can open a key below older envelopes. Reads in either
  direction can then miss envelopes (`Ordering.EvictionHidesAnEnvelope`, `Ordering.DescendingReadPartsGroup`,
  `TimeOrder.TruncationHidesNewest`). The exact conditions are `TimeOrder.StaysInOrderIff` over runs and
  `Shapes.CompleteIffOrderConsistent` on a tree.
- The 4002nd envelope at one time overwrites another (`Ordering.PutOverwrites`); exactly when that happens is
  `StoreModel.OverwritesIff`, and the count drifts exactly then (`StoreModel.CountDriftsOnOverwrite`).
- Truncation can pop an empty heap, which panics. Undisturbed it does so exactly when the number to prune exceeds the
  envelopes held (`Stores.Store.Truncate`). Among writers that overwrite nothing meanwhile it can do so exactly when that
  number exceeds the envelopes in indexed storages at the start plus the storages still to be filled
  (`TruncationCrashes.PopsEmptyHeapIff`). Besides overwriting, a writer that fills a storage which has just left the index
  gets there (`TruncationCrashes.OrphanCrashesTruncation`).
- Building the expiration heap panics at a storage that a writer has created and not filled yet
  (`TruncationCrashes.UnfilledStorageCrashesTruncation`); exactly then, by `TruncationCrashes.VisitCrashesIff`.
- The report panics in its second pass over a source that has left the index since the first
  (`MetaPasses.DroppedSourceCrashesReport`); the exact condition is `MetaPasses.ReportCrashesIff`.
- Different tags can share a series, even across sources, and the series is then out of order
  (`Series.SharedSeriesIsUnsorted`). The exact conditions are `SourcedTags.OwnSeriesIff` and
  `Series.SortedInEveryOrderIff`.
- Ids with bars, or an id with no expansion, do not survive rewriting (`SourceIdRewriting.BarredExpansionIsMisread`,
  `SourceIdRewriting.EmptyExpansionNamesEmptyId`); `SourceIdRewriting.MatcherCommutesIff` is exact for a matcher and
  `QueryRewriting.QueryCommutesIff` for a query.
- A rewritten query can name an id that its client is not authorized for, if an authorized id contains a bar
  (`AuthMiddleware.PieceIsNamed`); `AuthMiddleware.NamesOnlyAuthorizedIff` is exact.
- After a truncation `oldestTimestamp` need not be that of the oldest envelope (`OldestTimestamps.RecordsANewerOne`);
  unless two sources tie it is so exactly with one source left (`Stores.Store.Truncate`).

## How it is modelled

- The AVL tree library is any search tree: operations are methods with contracts over trees of any shape, and
  re-balancing is covered because every theorem about reads holds for all shapes.
- Hashes, regular expressions, clocks, random choices, network failures and memory readings are parameters.
- A drop, delay, reordering or regrouping of forwarded batches is a step of the cluster's state machine.
- A lock-protected section is one atomic step. Integers are unbounded, except in `StaticLookup.dfy`, where 64-bit
  overflow is the point. Metric values and the pruning arithmetic use exact reals.
- A parsed query is a tree whose selectors name rows of matchers; the visitors update the rows in place.

## Model

| member | source | states |
|---|---|---|
| `Stores.Store.constructor` | src/internal/cache/store/store.go:70-90 | A new store is empty, whatever its capacity. |
| `Stores.Store.GetOrInitializeStorage` | src/internal/cache/store/store.go:131-149 | Returns the storage the index maps the source to, creating an empty one exactly when there is none. |
| `Stores.Store.InsertOrSwap` | src/internal/cache/store/store.go:151-192 | The new source is the specified insertion: at capacity the least key leaves first; the envelope takes the first free key at or above its timestamp; the counters and the least and newest timestamps follow. |
| `Stores.Store.Put` | src/internal/cache/store/store.go:222-227 | Panics exactly without capacity; otherwise putting refines the specified step on the whole store, keeps every source non-empty with its least key recorded, and lowers the store's oldest timestamp to that of the source if that is smaller. |
| `Stores.Store.Get` | src/internal/cache/store/store.go:333-372 | Results are matches in key order, each at most once: envelopes that are held, cut down to the names asked for, with a timestamp in [start, end) and a payload of a requested type, spelled out by payload (asking for logs returns only logs). If the source is order-consistent, every such envelope held is returned unless the limit is reached; without colliding timestamps the result is exactly the first limit matches; nothing for an unknown source. |
| `Stores.Store.Meta` | src/internal/cache/store/store.go:532-562 | Without anyone else at work the report lists exactly the indexed sources; field by field, the count is the number of envelopes held, expired and the newest timestamp are the source's, and the oldest timestamp is its least key. |
| `StoreRuns.EveryRunReports` | src/internal/cache/store/store.go:554-559 | After every run, what is reported about a source: count plus expired plus overwritten is the number of its puts, 1 <= count <= capacity, the newest timestamp is that of its newest put, the oldest one its least key. |
| `StoreRuns.EveryPutIsCounted` | src/internal/cache/store/store.go:222-227 | After every run, the ingress counter is the number of puts, and each of them was expired, is held or was overwritten. |
| `MetaPasses.MissingIff` | src/internal/cache/store/store.go:535-561 | In every run, an indexed source is missing later if and only if the truncation dropped it and nobody put to it since. |
| `MetaPasses.ReportCrashesIff` | src/internal/cache/store/store.go:532-562 | Among other steps the second pass of the report crashes if and only if that happened to one of its sources between the passes. |
| `MetaPasses.DroppedSourceCrashesReport` | src/internal/cache/store/store.go:532-562 | A concrete run in which the second pass looks up a source that has left the index. |
| `Stores.Store.BuildExpirationHeap` | src/internal/cache/store/store.go:229-243 | The heap holds exactly one item per indexed source, keyed by its oldest envelope, and is a heap. |
| `Stores.Store.PopOldest` | src/internal/cache/store/store.go:262-264 | The popped source holds an envelope that no envelope of any source is older than. |
| `Stores.Store.RemoveOldestEnvelope` | src/internal/cache/store/store.go:302-329 | Removes exactly the least key of the source; a source that becomes empty leaves the index, otherwise the new oldest key is returned. |
| `Stores.Store.Truncate` | src/internal/cache/store/store.go:246-300 | Removes exactly min(quantity, count) envelopes, always a globally oldest one next; pops an empty heap exactly when that number exceeds the envelopes held; afterwards the recorded oldest timestamp is that of some live source and, unless two sources tie, the least of all exactly if that source is the only one; the number of prunes in a row grows by one, and starts again when it reaches the bound or nothing is to be pruned. |
| `Stores.Store.LastOldest` | src/internal/cache/store/store.go:286-290 | The last item of the heap is taken, with the same exact condition for being the minimum. |
| `OldestTimestamps.RecordsANewerOne` | src/internal/cache/store/store.go:246-291 | Concrete run: three puts to two sources and a truncation by one leave a recorded oldest timestamp that is newer than an envelope held. |
| `StoreModel.KeyIsUnique` | src/internal/cache/store/store.go:166-174 | The key of an envelope is determined: the first free one within 4000 of its timestamp, or the last of these. |
| `StoreModel.FreeFudge` | src/internal/cache/store/store.go:166-174 | All smaller offsets are taken, and the offset is free unless it is the last one. |
| `StoreModel.SmallNeverOverwrites` | src/internal/cache/store/store.go:166-175 | A source with at most 4000 envelopes after making room always has a free key, so no envelope is overwritten. |
| `StoreModel.OverwritesIff` | src/internal/cache/store/store.go:166-175 | An envelope is overwritten if and only if all 4001 candidate keys are taken. |
| `StoreModel.CountDriftsOnOverwrite` | src/internal/cache/store/store.go:151-175 | A put moves the count away from the envelopes held by one exactly if it overwrites, and otherwise not at all. |
| `Ordering.SameTimeTakesConsecutiveKeys` | src/internal/cache/store/store.go:166-175 | Puts at one time take consecutive keys, up to 4001 of them. |
| `Ordering.PutOverwrites` | src/internal/cache/store/store.go:166-175 | Concrete run: with room for more, the 4002nd put at one time overwrites an envelope. |
| `StoreModel.TotalAfterPut` | src/internal/cache/store/store.go:151-192 | A put changes the number of envelopes held by exactly the change of its own source. |
| `StoreModel.TotalAfterExpire` | src/internal/cache/store/store.go:302-329 | An expiration lowers the number of envelopes held by exactly one. |
| `StoreRuns.StepKeepsInvariant` | src/internal/cache/store/store.go:151-192 | Each put or expiration keeps conservation and all per-source bounds. |
| `StoreRuns.EveryRunKeepsInvariant` | src/internal/cache/store/store.go:151-192 | After every run: ingress minus expired is the count; the count exceeds the envelopes held by exactly the overwritten ones; per source, puts since creation are size plus expired plus overwritten, 1 <= size <= capacity, keys lie 0 to 4000 above timestamps, oldest is the least key, newest is the maximum of zero and all timestamps put, and on increasing timestamps the source is exactly the suffix of its puts. |
| `Truncation.ExpireRemoves` | src/internal/cache/store/store.go:302-329 | Expiring a globally oldest source removes that one key, nothing else, and nothing that stays is older. |
| `Truncation.RemovesGloballyOldest` | src/internal/cache/store/store.go:246-271 | A whole truncation removes as many envelopes as it has rounds, every removed key is at most every surviving key of every source, survivors are untouched, emptied sources are gone and the counters agree. |
| `Truncation.PutRecordsOldest` | src/internal/cache/store/store.go:176-182 | Puts keep the recorded oldest timestamp of every source equal to its least key, which truncation depends on. |
| `ExpirationHeaps.RootIsLeast` | src/internal/cache/store/store.go:579-582 | The root of the expiration heap is a least element. |
| `ExpirationHeaps.LastIsLeastIff` | src/internal/cache/store/store.go:286-288 | The last item of the heap is a least one if and only if it ties with the root. |
| `ExpirationHeaps.ExpirationHeap.Push` | src/internal/cache/store/store.go:585-587 | Pushing keeps the heap order and adds exactly the item. |
| `ExpirationHeaps.ExpirationHeap.Pop` | src/internal/cache/store/store.go:589-596 | Popping returns a least item, removes exactly it and keeps the heap order. |
| `SearchTrees.Put` | src/internal/cache/store/store.go:175 | Insertion into a search tree of any shape updates the contents at one key. |
| `SearchTrees.Remove` | src/internal/cache/store/store.go:157-159 | Removal from a search tree of any shape removes one key. |
| `SearchTrees.Left` | src/internal/cache/store/store.go:157 | The leftmost node holds the least key. |
| `SearchTrees.SameContentsSameOrder` | src/internal/cache/store/store.go:433-506 | Trees with equal contents list them in the same order, whatever their shapes. |
| `Traversal.ReadIsWalk` | src/internal/cache/store/store.go:356-372 | Both traversal directions are one walk that visits the near side, the node and the far side. |
| `Traversal.ReadIsSound` | src/internal/cache/store/store.go:356-506 | For any tree, keys and query: the result is a subsequence of the filtered key-ordered contents (no node twice), and every result lies in [start, end) and passes the type and name filters. |
| `Traversal.FilterIsIdempotent` | src/internal/cache/store/store.go:374-419 | Filtering a filtered envelope again changes nothing, and the timestamp is kept. |
| `Traversal.FilterKeepsPassingNames` | src/internal/cache/store/store.go:374-419 | A name filter lets an envelope through if and only if one of its metric names passes, reduced to exactly the passing names and otherwise unchanged. |
| `Traversal.NoNameFilter` | src/internal/cache/store/store.go:374-377 | Without a name filter every envelope passes unchanged. |
| `Traversal.TypeOfPayload` | src/internal/cache/store/store.go:508-529 | By payload: a log has exactly the types ANY and LOG, and likewise for counters, gauges, timers and events. |
| `Traversal.ValidIffWanted` | src/internal/cache/store/store.go:421-431 | The list of types admits an envelope if and only if there is no list, or ANY or the type of its payload is on it. |
| `Traversal.MatchIff` | src/internal/cache/store/store.go:356-372 | An entry contributes an envelope if and only if the name filter leaves that envelope of it, its timestamp is in [start, end) and its payload is wanted. |
| `Completeness.WalkIsScan` | src/internal/cache/store/store.go:433-506 | On order-consistent trees of any shape, the recursion that skips subtrees equals a linear scan of the key order. |
| `Completeness.ReadIsComplete` | src/internal/cache/store/store.go:433-506 | On order-consistent trees of any shape, a read in either direction is a prefix of all matches in order, and it is all of them or at least the limit. |
| `Completeness.StopsOnlyUnfudged` | src/internal/cache/store/store.go:433-506 | On any tree, a traversal that stops was stopped at a node whose key equals its timestamp, with the results that node left it with. |
| `Completeness.UnguardedIsUnfudged` | src/internal/cache/store/store.go:459-480 | Every node that the fudge test does not guard has its own timestamp as key. |
| `Completeness.OmittedBehindCut` | src/internal/cache/store/store.go:451-505 | On order-consistent trees a match that is left out lies behind a cut made at an unfudged node. |
| `Completeness.DescendingKeepsGroups` | src/internal/cache/store/store.go:482-506 | On order-consistent trees a descending read returns all or none of the matches with one timestamp. |
| `Completeness.AscendingCutsAfterFirst` | src/internal/cache/store/store.go:433-457 | On order-consistent trees an ascending read can part one group of equal timestamps at most, and then has returned just its first envelope. |
| `Shapes.UnfudgedReadIsExact` | src/internal/cache/store/store.go:433-506 | Without colliding timestamps a read is exactly the first limit matches, in both directions; a limit of zero or less still returns one envelope that passes the name filter if its type fits. |
| `Shapes.UnfudgedShapeIsIrrelevant` | src/internal/cache/store/store.go:433-506 | Without collisions, trees of different shapes answer every query alike. |
| `Shapes.ReadIsSelection` | src/internal/cache/store/store.go:356-506 | Every result of a read is what the name filter leaves of an envelope held, in the range and of a wanted type; on an order-consistent tree every such envelope is a result unless the limit is reached. |
| `Shapes.CompleteIffOrderConsistent` | src/internal/cache/store/store.go:433-506 | For every tree: its reads miss nothing, whatever the query, if and only if larger keys never have smaller timestamps in it. |
| `Shapes.InconsistentLoses` | src/internal/cache/store/store.go:433-506 | Every tree that is not order-consistent loses a match of some query, far below the limit. |
| `Shapes.PartsGroupIff` | src/internal/cache/store/store.go:433-506 | For every order-consistent tree: some read parts a group of equal timestamps if and only if the ascending traversal can stop at an entry that a later one shares its timestamp with. |
| `Shapes.PartedGroupIsOpen` | src/internal/cache/store/store.go:433-506 | Whatever the shape of an order-consistent tree, only a group with an unfudged and a fudged member can be parted. |
| `Ordering.NonDecreasingPutsStayOrdered` | src/internal/cache/store/store.go:166-175 | Below capacity and without exhausting keys, non-decreasing puts take ever larger keys, so the tree stays order-consistent and loses nothing. |
| `Ordering.FewPutsNeverOverwrite` | src/internal/cache/store/store.go:166-175 | At most 4001 puts never run out of keys, whatever their timestamps. |
| `Ordering.EvictingInsertKeepsOrderIff` | src/internal/cache/store/store.go:156-175 | At capacity, a non-decreasing put keeps the order if and only if it does not fall into the hole of the evicted key below an older envelope. |
| `TimeOrder.InsertKeepsOrderIff` | src/internal/cache/store/store.go:151-192 | A put that is not older than anything held keeps the order if and only if no older envelope was moved past its time with a free key in between. |
| `TimeOrder.StaysInOrderIff` | src/internal/cache/store/store.go:151-329 | Over every run of puts and expirations of any sources, at any capacity, evictions and overwriting included: if the timestamps put to a source do not decrease, it stays in time order throughout if and only if no put to it slips under an older envelope. |
| `TimeOrder.TruncationBreaksOrder` | src/internal/cache/store/store.go:151-329 | Concrete run below capacity: three puts at one time, two expirations and a put at the next time leave the newest envelope below an older one. |
| `TimeOrder.TruncationHidesNewest` | src/internal/cache/store/store.go:433-457 | On the tree these steps leave, a read of the newest envelope's time returns nothing. |
| `Ordering.NonDecreasingPutsKeepOrderIff` | src/internal/cache/store/store.go:151-192 | Over every run of non-decreasing puts only, evictions and overwriting included, the order is kept throughout if and only if no put undercuts. |
| `TimeOrder.SlipsIffUndercuts` | src/internal/cache/store/store.go:151-192 | On such runs slipping under an older envelope is the same as undercutting. |
| `Ordering.EvictionBreaksOrder` | src/internal/cache/store/store.go:156-175 | A concrete source of capacity 3: after timestamps t, t, t, t+1, t+1 the newest envelope has the least key. |
| `Ordering.EvictionHidesAnEnvelope` | src/internal/cache/store/store.go:433-457 | On the balanced tree of that source a read returns one of two matching envelopes. |
| `Ordering.DescendingReadPartsGroup` | src/internal/cache/store/store.go:482-506 | Six puts at capacity 4 lose the order, and on a balanced tree of that source a descending read far below its limit returns one of two equal timestamps. |
| `Ordering.BalancedTreePartsGroup` | src/internal/cache/store/store.go:433-480 | On the balanced tree of three equal timestamps an ascending read with limit 1 parts the group. |
| `Ordering.OlderEnvelopeShieldsGroup` | src/internal/cache/store/store.go:433-480 | On the balanced tree of an older envelope and two at one time no read parts the group, although it is an open one. |
| `Interleaving.StepKeepsInvariant` | src/internal/cache/store/store.go:131-329 | Each critical section of any writer or of the truncation loop keeps the invariant below. |
| `Interleaving.EveryInterleavingKeepsInvariant` | src/internal/cache/store/store.go:131-329 | Under every interleaving of writers and truncation, the count equals the envelopes held by all storages ever created plus the overwritten ones, and every storage on the expiration heap is the one the index maps its source to. |
| `TruncationCrashes.CoveredIsKept` | src/internal/cache/store/store.go:246-271 | One step of anyone keeps enough envelopes within reach of the truncation, and no round pops an empty heap. |
| `TruncationCrashes.NoRunPopsAnEmptyHeap` | src/internal/cache/store/store.go:246-271 | Over every run whose truncations start within reach and are not disturbed by overwriting, no round pops an empty heap, whatever the writers do meanwhile. |
| `TruncationCrashes.PopsEmptyHeapIff` | src/internal/cache/store/store.go:246-271 | For every reachable world: a truncation can come to pop an empty heap if and only if it starts with a number to prune that exceeds the envelopes in indexed storages plus the indexed storages still to be filled. |
| `TruncationCrashes.RunsWithoutOrphansStayWithinReach` | src/internal/cache/store/store.go:246-271 | Runs in which nothing is overwritten and no truncation starts with an envelope outside the index stay within reach. |
| `TruncationCrashes.VisitCrashesIff` | src/internal/cache/store/store.go:233-236 | Building the heap crashes at a storage if and only if it is empty, and then a writer is between creating or finding it and filling it. |
| `TruncationCrashes.CrashedIffVisitedEmpty` | src/internal/cache/store/store.go:229-271 | On the runs above the truncation loop has crashed if and only if it visited a storage that was not filled yet. |
| `TruncationCrashes.OrphanCrashesTruncation` | src/internal/cache/store/store.go:131-329 | A concrete reachable run without overwriting in which a writer fills a storage that has left the index and the next truncation pops an empty heap. |
| `TruncationCrashes.UnfilledStorageCrashesTruncation` | src/internal/cache/store/store.go:131-243 | A concrete reachable run without orphans and overwriting in which building the heap meets a storage that was created and not filled yet. |
| `PruneConsultants.KeepsFractionRoundedUp` | src/internal/cache/store/prune_consultant.go:35-50 | Above the target p, what stays of the count is its fraction p / h, rounded up, where h is the heap share. |
| `PruneConsultants.PrunesIff` | src/internal/cache/store/prune_consultant.go:35-50 | Something is pruned if and only if the heap share exceeds the target by at least one envelope's part of it. |
| `PruneConsultants.OneTruncationReachesTarget` | src/internal/cache/store/prune_consultant.go:35-50 | After one truncation the proportional heap share lies in [p, p + h / count). |
| `PruneConsultants.HeapPercentageIs` | src/internal/cache/store/prune_consultant.go:38 | The percentage times the total is 100 times the heap, reduced modulo 2 to the 64 if that product wraps around. |
| `PruneConsultants.PrunesInBytes` | src/internal/cache/store/prune_consultant.go:35-50 | In heap and total, unless 100 times the heap wraps around: nothing is pruned while 100 * heap <= p * total, and otherwise what stays is count * p * total / (100 * heap), rounded up. |
| `RoutingTables.NewRoutingTable` | src/internal/routing/routing_table.go:19-42 | Fails exactly when the replication factor is zero or exceeds the number of addresses; each address gets the index of its last occurrence. |
| `RoutingTables.Lookup` | src/internal/routing/routing_table.go:44-61 | The i-th of the first r nodes is (node + i * r) mod n, for replication factor r and n addresses; behind them are exactly the hosts of the ranges that contain the hash, ends included. |
| `RoutingTables.ReplicasCoincideIff` | src/internal/routing/routing_table.go:49-53 | Two replicas of a source coincide if and only if the number of nodes divides their distance times the factor. |
| `RoutingTables.ReplicasDistinctIff` | src/internal/routing/routing_table.go:44-53 | A source has r replicas, all valid nodes, and they are pairwise distinct if and only if r * gcd(r, n) <= n. |
| `RoutingTables.SingleOwner` | src/internal/routing/routing_table.go:44-53 | With replication factor 1 the only replica is the hashed node. |
| `StaticLookups.NewStaticLookup` | src/internal/routing/static_lookup.go:17-37 | Panics exactly on a non-positive number of routes; otherwise the tree maps i times the slice width to route i, without overflow, and the width is the largest of which n fit into 64 bits. |
| `StaticLookups.Lookup` | src/internal/routing/static_lookup.go:39-43 | Every 64-bit hash finds the route min(h / x, n - 1) by the floor of the tree. |
| `StaticLookups.RouteOwnsSlice` | src/internal/routing/static_lookup.go:17-43 | Route i is found if and only if the hash lies in its slice. |
| `StaticLookups.LastSliceWidth` | src/internal/routing/static_lookup.go:17-43 | The last slice is wider by one plus the remainder of the division. |
| `LocalStoreReaders.ToQuery` | src/internal/routing/local_store_reader.go:46-94 | Rejects exactly a start behind a given end, a limit below 0 or above 1000 and a name filter that does not compile; otherwise applies the default limit 100 and the current time, so the store sees limits 1 to 1000, and asks for an envelope exactly if its own type was requested or nothing but the wildcard was. |
| `LocalStoreReaders.TypesAdmitIff` | src/internal/routing/local_store_reader.go:77-82 | The type filter that reaches the store admits an envelope if and only if only the wildcard was asked for or a named type fits. |
| `ReverseProxies.Split` | src/internal/routing/ingress_reverse_proxy.go:48-54 | Each node's batch is its share of the original batch in order, once per replica on the node, and no empty batch is made. |
| `ReverseProxies.RouteRead` | src/internal/routing/egress_reverse_proxy.go:59-77 | A read is unroutable exactly without replicas, local exactly when the node is a replica, and otherwise goes to the chosen replica. |
| `ReverseProxies.AnswerForwarded` | src/internal/routing/egress_reverse_proxy.go:59-71 | A node that is asked as a replica answers itself, so a read is forwarded at most once. |
| `Clusters.ForwardsAreShares` | src/internal/routing/ingress_reverse_proxy.go:48-68 | What is sent to another node is, envelope by envelope, the share that the split gives it. |
| `Clusters.ShareIsSublist` | src/internal/routing/ingress_reverse_proxy.go:48-54 | If no source has two replicas on one node, each node's batch is the ordered sub-list routed to it. |
| `Clusters.StepKeepsPlaced` | src/internal/routing/ingress_reverse_proxy.go:43-71 | Each send, delivery or loss keeps the placement below. |
| `Clusters.EveryRunPlaces` | src/internal/routing/ingress_reverse_proxy.go:43-71 | In every run with lost, delayed, reordered and regrouped forwards, an envelope is stored only on nodes its source is routed to and no request is forwarded twice. |
| `ClusterRefinement.RoutingTableHasOwners` | src/internal/cache/log_cache.go:205-208 | The routing table of a node, with replication factor 1, gives every source exactly one owner. |
| `ClusterRefinement.StepConserves` | src/internal/routing/ingress_reverse_proxy.go:43-71 | Each step keeps the conservation below. |
| `ClusterRefinement.EveryRunConserves` | src/internal/routing/ingress_reverse_proxy.go:43-71 | In every run with one owner per source, each copy of an envelope that was sent is stored at its owner, in flight, or lost - exactly one of these. |
| `ClusterRefinement.ReplayIsFillPerSource` | src/internal/cache/log_cache.go:251-257 | What a store holds of a source depends only on the puts of that source, in order. |
| `ClusterRefinement.OrderDoesNotMatter` | src/internal/cache/store/store.go:151-192 | Below capacity and with distinct timestamps, the order of arrival does not matter: equal envelopes give an equal source, counters included. |
| `ClusterRefinement.OwnerHoldsWhatOneStoreHolds` | src/internal/cache/log_cache.go:205-262 | Once a source is drained, below capacity and with distinct timestamps, its owner holds exactly what one store that received every send would hold, and no other node knows the source. |
| `Probing.ProbesCommute` | src/internal/cache/store/store.go:166-175 | Two searches for a free key occupy the same keys in either order. |
| `Probing.ArrivalOrderDoesNotMatter` | src/internal/cache/store/store.go:166-175 | Below capacity and with at most 4001 puts, whatever their timestamps, the order of arrival changes neither the keys in use nor how often each envelope is held. |
| `Probing.OwnerHoldsSameEnvelopes` | src/internal/cache/log_cache.go:205-262 | Hence a drained owner holds the same envelopes under the same keys as one store, colliding timestamps included. |
| `ClusterRefinement.ReadThroughAnyNode` | src/internal/routing/egress_reverse_proxy.go:59-87 | A read through any node, over trees of any shapes, returns what the single store returns over a tree of any shape; only a read that has to ask an unavailable owner gets no envelopes instead. |
| `MetaCaches.Proxy.LocalMeta` | src/internal/routing/egress_reverse_proxy.go:97-115 | A report no older than the duration is served unchanged; after that a new one is fetched, stamped and cached; what is returned was the store's report at most one duration ago, plus the time spent fetching. |
| `MetaCaches.Proxy.RemoteMeta` | src/internal/routing/egress_reverse_proxy.go:117-158 | A merged report no older than the duration is served unchanged; after that the answers of the nodes that answer are merged and cached, the others skipped, and it fails only if none answers; every part reflects its node's store of one duration ago for the own node and two for a peer, plus fetching time; failures leave the cache as it was. |
| `MetaCaches.Proxy.Poll` | src/internal/routing/egress_reverse_proxy.go:132-147 | One round over all nodes: the result is the merge of the answers, and the number of errors is the number of nodes without an answer. |
| `MetaCaches.MergedTakesTheLast` | src/internal/routing/egress_reverse_proxy.go:143-146 | A merged entry is that of the last node that reports the source; there is none without a report. |
| `MetaCaches.MergedIsLossless` | src/internal/routing/egress_reverse_proxy.go:143-146 | When only one node reports a source, its entry is in the merge unchanged. |
| `MetaCaches.EntryReflectsOwner` | src/internal/routing/egress_reverse_proxy.go:90-182 | If one node owns a source, a reported entry is the owner's report at most two cache durations ago (one for the asked node's own), plus fetching time. |
| `ClusterMeta.OnlyOwnerKnows` | src/internal/routing/ingress_reverse_proxy.go:43-71 | In every run with one owner per source, drained or not, no other node ever knows the source. |
| `ClusterMeta.ReportedEntryIsOwners` | src/internal/routing/egress_reverse_proxy.go:90-182 | Hence in every run of a cluster a reported entry is the owner's report with that staleness. |
| `Alternatives.JoinSplit` | src/internal/promql/promql.go:675-685 | Splitting a string at bars and joining the pieces gives it back. |
| `Alternatives.RoundTripIff` | src/internal/promql/promql.go:745-774 | Joining ids with bars and splitting gives them back if and only if there is an id and none contains a bar. |
| `Alternatives.PieceOfJoin` | src/internal/promql/promql.go:745-774 | Whatever the ids, the pieces of their joined list are the pieces of each of them. |
| `SourceIdRewriting.JoinedIdsIff` | src/internal/promql/promql.go:745-774 | The ids extracted from a rewritten matcher are its expansions if and only if there is exactly one, or several without bars. |
| `SourceIdRewriting.MatcherCommutesIff` | src/internal/promql/promql.go:675-774 | For every matcher: extraction after rewriting gives the expansions of the ids extracted before if and only if its joined expansions can be read back. |
| `SourceIdRewriting.BarredExpansionIsMisread` | src/internal/promql/promql.go:745-756 | Concrete query: an id that expands to one with a bar ends up naming other ids. |
| `SourceIdRewriting.EmptyExpansionNamesEmptyId` | src/internal/promql/promql.go:745-756 | Concrete query: an id that expands to nothing ends up naming the empty id. |
| `QueryRewriting.QueryCommutesIff` | src/internal/promql/promql.go:616-774 | For every query and all expansions: the ids of the rewritten query are the expansions of its ids if and only if whatever is read from its matchers is an expansion and every expansion with a bar stands alone behind some matcher. |
| `SourceIdRewriting.RewritingCommutes` | src/internal/promql/promql.go:616-774 | In particular for every query tree in which each single matcher meets its own condition. |
| `SourceIdRewriting.PlainRewritingCommutes` | src/internal/promql/promql.go:616-774 | The same for every query whose ids all have non-empty expansions without bars. |
| `SourceIdRewriting.SelfExpansionKeepsValue` | src/internal/promql/promql.go:745-774 | Expanding ids to themselves keeps each matcher's name and value; only a regular expression without bars turns into an equality. |
| `SourceIdRewriting.Expand` | src/internal/promql/promql.go:758-766 | The loop over the alternatives concatenates their expansions; an id without an entry contributes nothing. |
| `SourceIdRewriting.ReplaceInMatcher` | src/internal/promql/promql.go:732-774 | The in-place update of one matcher is the specified rewriting. |
| `SourceIdRewriting.AddIds` | src/internal/promql/promql.go:667-685 | Adds exactly the ids of a selector's matchers to the set. |
| `SourceIdRewriting.ParsedQuery.Extract` | src/internal/promql/promql.go:616-665 | The visitor collects exactly the ids named anywhere in the query. |
| `SourceIdRewriting.ParsedQuery.Replace` | src/internal/promql/promql.go:687-743 | The visitor rewrites every matcher once, in place, and touches nothing outside the visited part. |
| `AuthMiddleware.AuthorizeSourceIds` | src/internal/auth/cf_auth_middleware.go:225-235 | Keeps exactly the authorized ids in their order. |
| `AuthMiddleware.AuthorizedMember` | src/internal/auth/cf_auth_middleware.go:225-235 | An id survives if and only if it was listed and is authorized. |
| `AuthMiddleware.GrantAll` | src/internal/auth/cf_auth_middleware.go:160-173 | For an administrator every id maps to itself and its related ids; for another client to the authorized ones of these; it gives up exactly if the client may read none of them for some id. |
| `AuthMiddleware.HandleQuery` | src/internal/auth/cf_auth_middleware.go:105-186 | 404 exactly without a token, or on a bad token, a failed translation or an id that grants nothing; 400 exactly if the query does not parse or names no ids; otherwise the query is rewritten with the granted ids and, if the expansions can be read back, names exactly the ids asked for and their related ones that the client may read; rejected queries stay as they were. |
| `AuthMiddleware.NamesOnlyAuthorizedIff` | src/internal/auth/cf_auth_middleware.go:154-175 | For every query whose ids were all granted authorized ids, the rewritten query names only authorized ids if and only if, wherever several ids are joined, each piece between bars is authorized. |
| `AuthMiddleware.GrantsAreWellGranted` | src/internal/auth/cf_auth_middleware.go:154-167 | What the loop leaves for a client that is not an administrator grants every id something and only authorized ids. |
| `AuthMiddleware.PieceIsNamed` | src/internal/auth/cf_auth_middleware.go:154-175 | Concrete query: with an authorized id that contains a bar among several, the rewritten query names a piece of it that is not authorized. |
| `AuthMiddleware.RewrittenNamesOnlyAuthorized` | src/internal/auth/cf_auth_middleware.go:154-175 | In particular, for every query whose expansions can be read back, the rewritten query names an id if and only if it is authorized and related to an id asked for. |
| `AuthMiddleware.AdministratorNamesAllRelated` | src/internal/auth/cf_auth_middleware.go:160-175 | For an administrator and every query whose expansions can be read back, the rewritten query names exactly the ids asked for and their related ones. |
| `AuthMiddleware.DeniedIff` | src/internal/auth/cf_auth_middleware.go:160-170 | An id grants nothing if and only if the client may read neither it nor a related one. |
| `AuthMiddleware.BarFreeGrantsAreReadable` | src/internal/auth/cf_auth_middleware.go:154-175 | Expansions can be read back in particular when no authorized id contains a bar and every id grants something. |
| `AuthMiddleware.OnlyAuthorized` | src/internal/auth/cf_auth_middleware.go:237-251 | The report is reduced to exactly the available sources; an administrator gets all of it. |
| `SeriesIds.GetSeriesId` | src/internal/promql/promql.go:584-598 | The loop over the sorted names computes the series id. |
| `SeriesIds.DashFreeIdsAreDistinct` | src/internal/promql/promql.go:584-598 | Different tags without dashes never share a series id. |
| `SourcedTags.OwnSeriesIff` | src/internal/promql/promql.go:403-413 | For all tags with a source id, dashes included: no other such tags share their series if and only if there is only a source id that cannot be read as a shorter one and a larger tag, or one dash-free tag before a source id that can be read in neither of two ways. |
| `SourcedTags.DashFreeOwnSeriesIff` | src/internal/promql/promql.go:403-413 | Without dashes: if and only if there is only the source id, or one more tag that sorts before it. |
| `SourcedTags.ManyTagsShare` | src/internal/promql/promql.go:584-598 | Any three or more tags with a source id share their series with some other tags with a source id. |
| `SourcedTags.IdAround` | src/internal/promql/promql.go:584-598 | A series id is that of the smaller names, a name with its value, and that of the larger names. |
| `Series.SeriesSetBuilder.AddPoint` | src/internal/promql/promql.go:567-582 | Appends the point to its series; every series holds exactly the points added under its id in order, and the points of all series add up to the points added. |
| `Measurements.SanitizedIsMetricName` | src/internal/promql/promql.go:433-440 | Sanitizing gives a valid name of the same length and changes exactly the names that are not valid; letters, and digits but in front, are kept, every other character becomes an underscore. |
| `Measurements.MeasureIff` | src/internal/promql/promql.go:374-431 | An envelope contributes to a metric if and only if one of its names becomes the metric, and then with the value under such a name. |
| `Series.CollectBatch` | src/internal/promql/promql.go:369-417 | Adds exactly one point for each envelope that has every selected label as a tag, name and value, and measures the metric: the measured value, at the whole second the envelope lies in, under its tags with its source id and, if not empty, its instance id; nothing else is added. |
| `Series.ReadMatchers` | src/internal/promql/promql.go:322-340 | The metric is the value of the last matcher on the name; the sources are the values of equalities and the alternatives of regular expressions on source_id; the labels are exactly the names and values of all other matchers. |
| `Series.HasLabelsIff` | src/internal/promql/promql.go:453-461 | An envelope has the labels if and only if each pair of name and value is among its tags. |
| `Series.SeriesTagsIff` | src/internal/promql/promql.go:403-411 | Key by key: source_id is the source, instance_id the instance if that is not empty, and all other tags are the envelope's own. |
| `Series.Select` | src/internal/promql/promql.go:321-421 | Fails exactly without a source id or if a read fails; otherwise each source is read once, and a point is added if and only if some envelope read has all pairs the matchers ask for, measures the metric, and gives that value, second and tags. |
| `Series.MillisTruncates` | src/internal/promql/promql.go:401-411 | A point's time is the whole second, in milliseconds, that its envelope lies in. |
| `Series.BatchIsSorted` | src/internal/promql/promql.go:401-413 | Points of one ascending batch stay ascending after truncation, in every series. |
| `Series.SortedInEveryOrderIff` | src/internal/promql/promql.go:350-421 | With ascending batches, a series is in time order whatever order the sources are read in if and only if the points of different sources in it are all at one time. |
| `Series.SeriesIsSortedIff` | src/internal/promql/promql.go:350-421 | For one order of reading: a series is in time order if and only if no batch contributes a point later than one of a batch read after it. |
| `Series.SeriesIsSorted` | src/internal/promql/promql.go:345-421 | In particular, a series that belongs to one source is in time order, whatever the order of the sources. |
| `Series.TwoSourcesShareASeries` | src/internal/promql/promql.go:584-598 | Concrete tags: source p-z-r, and source p with the tag z = r, share a series. |
| `Series.SharedSeriesIsUnsorted` | src/internal/promql/promql.go:345-421 | Concrete reads of these two sources give a series that goes back in time. |
| `Series.DashFreeSeriesHaveOneSource` | src/internal/promql/promql.go:567-598 | Tags without dashes never mix two sources in a series. |
| `Series.SeriesIterator.Seek` | src/internal/promql/promql.go:527-532 | Binary search lands on a crossing; on sorted points what remains is exactly the points at or after the time. |
| `Series.SeriesIterator.Next` | src/internal/promql/promql.go:542-545 | Advances by one and says whether a point is there. |
| `Series.SeriesIterator.ReadFrom` | src/internal/promql/promql.go:527-545 | Seeking and advancing enumerates exactly the points at or after the time, in order. |
| `EnvelopeBatchers.EnvelopeBatcher.Append` | src/internal/nozzle/nozzle.go:142-144 | Appends in place or in a larger copy, without touching any batch handed over. |
| `EnvelopeBatchers.EnvelopeBatcher.Flush` | src/internal/nozzle/nozzle.go:146-164 | Hands the whole batch over and starts a fresh one, or drops it and reuses its array. |
| `EnvelopeBatchers.EnvelopeBatcher.Step` | src/internal/nozzle/nozzle.go:139-172 | A batch leaves exactly when it reaches 512 envelopes or the timer fires on a non-empty one, whole and with the envelope just read, handed over exactly if the channel has room; at most 511 envelopes stay pending; batches handed over are never changed. |
| `EnvelopeBatchers.EnvelopeBatcher.Run` | src/internal/nozzle/nozzle.go:135-174 | Over every run: what was read is the concatenation of the segments sent or dropped and the pending envelopes, the numbers add up, every batch has 1 to 512 envelopes and sent batches stay as they were. |
| `EnvelopeBatchers.NothingElse` | src/internal/nozzle/nozzle.go:135-174 | Envelopes that left the batcher were sent or dropped, and nothing else. |
| `EnvelopeBatchers.SegmentsAreContiguous` | src/internal/nozzle/nozzle.go:135-174 | Each sent or dropped segment is a contiguous piece of what was read, right behind the one before. |

## Left out

- Timestamps within 4000 nanoseconds of the largest 64-bit integer, where adding the fudge would wrap around.
- Floating-point rounding in the pruning arithmetic; the percentages are exact reals.
- Gauges, cache-period computation, garbage collection triggers other than the counter of consecutive truncations.
- Replays of a store in the cluster model contain puts only; truncation on the nodes is modelled in the store itself.
- ClusterRefinement.OwnerHoldsWhatOneStoreHolds: asks for distinct timestamps and room, because which envelope gets which of several colliding keys, and what an eviction removes, depend on the order of arrival; what does not depend on it is `Probing.OwnerHoldsSameEnvelopes`.
- MetaCaches.Proxy.RemoteMeta: assumes one clock for all nodes that does not go back, and a bound on the time spent fetching; with zero the bounds are one and two cache durations.
- Stores.Store.InsertOrSwap: speaks of stores with a capacity of at least 1; without capacity the first put panics before it, as `Stores.Store.Put` says.
- Measurements.MeasureIff: which of several gauge values with one sanitized name is taken is a parameter, as map iteration decides it.
- Stores.Store.Get: an unknown envelope type in a query, which panics in the source, cannot be expressed.
- Dial failures and duplicate addresses at start-up, which would shift client indices.
- The PromQL parser, printer and engine, the walking data reader, and the HTTP, gRPC, TLS, CAPI and UAA plumbing.
- The internals of the batched ingress client and the diode buffer; they are a lossy channel and a source of envelopes here.
- Conversions of syslog messages, access logs and JSON results, which would only add easy members.
