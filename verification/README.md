# Agent state storage: a verified model

This project models the hard core of the agent state storage system in Dafny and proves what it
relies on: the shared-memory ring between engine and agent, the request router and its cache, the
in-memory and polling etcd clients, watch-driven refresh of the cluster view, the storage node's
handles, refcounts, eviction and durable state plane, the span exporter, and per-layer save and load.

`dafny verify dfyconfig.toml` checks everything.

## How it is built

Concurrent code is a state machine. Each action is one atomic step of one thread (a load, a
compare-and-swap, one critical section), a schedule is any sequence of actions, and the theorems hold
for every schedule. Code that mutates an object is a class whose methods have the loops of the source
and are proved to compute a function on values; the theorems about whole runs are about that function.
What the code does not decide (spurious CAS failures, clock readings, hash-map iteration orders, the
answers of bloom filter and resolver, short writes, where a crash cuts the file) is a parameter of the
action, so every choice is covered. Hashes and the CRC are arbitrary functions.

| files | component |
|---|---|
| `Wrapping`, `RingProtocol`, `RingSafety`, `RingProgress`, `RingQueue` | the multi-producer multi-consumer ring, interleaved and as a sequential queue |
| `Wire`, `WireLayout`, `RouterModel`, `Router` | message codecs, routing decisions over whole runs, the router over cache and rings |
| `CacheModel`, `RoutingCache` | the LRU and TTL cache as a list, and as list plus iterator index |
| `EtcdTypes`, `EtcdStore`, `EtcdEffects`, `EtcdLeases`, `EtcdClient` | revisions, compare-and-swap, leases, watches |
| `ClusterView`, `ViewRefresh`, `ViewProgress`, `ViewFailures` | which nodes are routable, the refresh protocol, that it makes progress, and what it needs of values and loads |
| `Base64`, `PrefixRange`, `PollWatch` | the pure cores of the HTTP etcd client |
| `NodeEviction`, `NodeReadRaces` | readers, seals and evictors racing on a refcount and on the index |
| `NodeHandles`, `NodeRaces`, `NodeProgress` | reserves, seals, releases and the sweeper racing on handles and pinned slots, and what each does by itself |
| `NodeModel`, `NodeSafety`, `NodeHistory`, `NodeLookups`, `NodeReaders`, `NodeEvictKeys`, `NodeEvictPaths`, `HeadlessNode` | the node's operations, what every sequence of them keeps, and the class |
| `WalFormat`, `WalLayout`, `StatePlane`, `StateValues`, `StateFailures`, `StateWal` | the state log byte by byte, the durable plane under crashes, what it needs of values and failures, and the classes |
| `OtlpExporter` | the span exporter's protocol and class |
| `LayerModel`, `LayerAlign`, `LayerBuffers` | per-layer fan-in and fan-out |

## Where a promise needs a condition

For each of these the exact condition is proved, in both directions.

- A one-slot ring passes the power-of-two test (sq_cq.cpp:24) and loses data (`SafeIffTwoSlots`).
- A failed append leaves its stray bytes in the state log; the comment at state_wal.cpp:119-122 says they heal at the
  next open. The process goes on appending behind them, and the next open cuts everything from the stray bytes on,
  acknowledged records included (`ShortWriteHarmlessIff`, `PartWriteLosesAcked`). A failed fsync is as harmful to what
  is appended after it (`SurvivesIff`).
- The state plane is safe for content-addressed values only. With two values for one key, two puts staged in the other
  order than appended, or a slow read staged after a later put, leave DRAM and log apart (`ResidentDurableIff`,
  `ReadsLatestIff`, `CrossedPuts`, `SlowReadGoesStale`).
- Seal copies a handle's state before it works and erases the handle after. Two Seals of one handle commit it twice, and
  a Release or the sweeper can take the slot from under a Seal; slots are conserved all the same (`SoundIff`,
  `SlotsConserved`).
- A chunk is known by its hash alone, so two chunks that hash alike make one prompt's leaf answer for another
  (`LookupSoundIff`).
- The evict index is keyed by content and remembers paths, so after a path is sealed under a second key, evicting the
  first removes the second's leaf (`EvictsOwnLeafIff`); and it remembers one path per key, so a key sealed at two paths
  is evicted at the last one only (`EvictsWholeKeyIff`).
- A Seal replaces the leaf at its path and retires it, read or not; the read handle keeps pointing at it
  (`NodeReaders.ReadLeavesStayIff`, and `NodeReadRaces.ReadLeavesStayIff` for every interleaving).
- An evictor removes by path after its claim without looking again, so a Seal in between makes it
  remove a leaf that may be read (`RemovesClaimedLeafIff`).
- The agent starts the refresh loop before it subscribes, so a change in the gap can stay unseen until the next
  change or the next periodic refresh (`SubscriptionGapIff`). A load that fails or reads a malformed view keeps the
  last good set and nothing asks again until the interval or the next change, also when no event was missed
  (`RefreshCurrentIff`).
- A node the resolver drops can be answered for one TTL from the moment of caching, which is later than the moment it
  was named (`VanishesIff`).
- Stop releases a waiting Flush with spans still queued (`FlushSureIff`).
- `drain_all` says that incomplete requests stay buffered (layer_accumulator.py:101-104); `drain_request` pops
  them first (`RetainsIncompleteIff`).
- A load gives layers back their bytes only if every registered layer was saved (`SaveThenLoadIff`); with unregistered
  layers in the blob the cut can shift (`LayerComesBackIff`).
- With a batch size of zero the exporter never drains and a Flush with anything exported never returns
  (`ShutdownDrainsIff`, `FlushReturnsIff`).
- The range end of an all-0xff prefix is empty, which bounds nothing (`PlainIntervalIff`, `EtcdRangeIff`).

Where code and comments disagree the model follows the code: router.h describes fetch and publish as
unsupported, and the code routes them; cluster_view.h says that the in-memory client calls back under its
mutex, and the code dispatches from a thread of its own without it.

## Model

| member | source | states |
|---|---|---|
| `RingSafety.RingIsSafe` | src/kvagent/src/shmem_ring/sq_cq.cpp:198-257 | In every interleaving of any number of producers and consumers on at least two slots: tail <= head <= tail + N, no published payload is overwritten before it is popped, what is popped at a ticket is what was pushed at it, each slot has at most one owner between claim and stamp store, and no ticket is popped twice |
| `RingSafety.NothingLost` | src/kvagent/src/shmem_ring/sq_cq.cpp:198-257 | Whenever every thread is idle, the tickets below head are exactly the published ones, those below tail exactly the popped ones, and every ticket in between still has its payload in its slot |
| `RingSafety.SafeIffTwoSlots` | src/kvagent/src/shmem_ring/sq_cq.cpp:24-24 | Over all schedules the ring keeps every published payload if and only if it has at least two slots; the power-of-two test also accepts one |
| `RingSafety.OneSlotOverwrites` | src/kvagent/src/shmem_ring/sq_cq.cpp:98-108 | A schedule of two pushes that overwrites an unread payload in a one-slot ring |
| `RingProtocol.PushClaimIsFresh` | src/kvagent/src/shmem_ring/sq_cq.cpp:203-211 | A successful producer CAS implies that the stamp read before it is still current |
| `RingProtocol.PopClaimIsFresh` | src/kvagent/src/shmem_ring/sq_cq.cpp:235-243 | A successful consumer CAS implies that the stamp read before it is still current |
| `RingProtocol.OwnersAreExclusive` | src/kvagent/src/shmem_ring/sq_cq.cpp:208-248 | Two threads between their claim and their stamp store never own the same slot |
| `RingSafety.PublishedTicketIntact` | src/kvagent/src/shmem_ring/sq_cq.cpp:212-217 | A published, not yet claimed ticket has its payload in its slot |
| `RingSafety.PushFailsIffFull` | src/kvagent/src/shmem_ring/sq_cq.cpp:203-223 | A push gives up exactly when, at its stamp load, its ticket is the head and the ticket one lap earlier has not been popped |
| `RingSafety.PopFailsIffEmpty` | src/kvagent/src/shmem_ring/sq_cq.cpp:235-252 | A pop gives up exactly when, at its stamp load, its ticket is the tail and has not been published |
| `RingSafety.HistoryGrows` | src/kvagent/src/shmem_ring/sq_cq.cpp:198-257 | Along every run tickets are only added: what was pushed, published or popped stays so, with the same bytes |
| `RingProgress.PushesWereGiven` | src/kvagent/src/shmem_ring/sq_cq.cpp:198-229 | In every interleaving the payload of every ticket is one that a push of the schedule was called with |
| `RingProgress.PushSucceedsIff` | src/kvagent/src/shmem_ring/sq_cq.cpp:198-229 | After every interleaving that leaves no call under way, a push of a payload that fits publishes exactly that payload under the next ticket, unless the ring is full, and then changes nothing |
| `RingProgress.PopSucceedsIff` | src/kvagent/src/shmem_ring/sq_cq.cpp:231-257 | A pop then takes the oldest ticket and returns a slot that begins with its payload, unless the ring is empty, and then changes nothing |
| `RingProtocol.ActKeeps` | src/kvagent/src/shmem_ring/sq_cq.cpp:198-257 | Every atomic step of every thread keeps the ring invariant |
| `RingProtocol.ExecKeeps` | src/kvagent/src/shmem_ring/sq_cq.cpp:198-257 | Every schedule keeps the ring invariant |
| `RingQueue.SqCq.constructor` | src/kvagent/src/shmem_ring/sq_cq.cpp:98-108 | A new ring of any number of slots is empty with each stamp at its own index; from two slots on it is a queue |
| `RingQueue.SqCq.TryPush` | src/kvagent/src/shmem_ring/sq_cq.cpp:198-229 | Used sequentially, a push appends its payload and fails exactly when the ring is full or the payload too long, whatever the number of spurious CAS failures |
| `RingQueue.SqCq.TryPop` | src/kvagent/src/shmem_ring/sq_cq.cpp:231-257 | A pop removes the oldest payload, returns a slot that begins with it, and fails exactly when the ring is empty |
| `RingQueue.PushStamp` | src/kvagent/src/shmem_ring/sq_cq.cpp:203-206 | What the stamp of any position up to head says in a ring that holds a queue |
| `RingQueue.PopStamp` | src/kvagent/src/shmem_ring/sq_cq.cpp:235-238 | What the stamp of any position up to tail says in a ring that holds a queue |
| `RingQueue.PushCarries` | src/kvagent/src/shmem_ring/sq_cq.cpp:212-217 | Writing slot and stamp of the head position turns a ring holding q into one holding q + [payload] |
| `RingQueue.PopCarries` | src/kvagent/src/shmem_ring/sq_cq.cpp:244-248 | Recycling the stamp of the tail position turns a ring holding q into one holding the rest of q |
| `Wrapping.MaskIsWrap` | src/kvagent/src/shmem_ring/sq_cq.cpp:34-42 | For a power-of-two slot count, masking a position picks the slot position modulo slot count |
| `Wire.PutU64` | src/kvagent/src/router/router.cpp:19-21 | Appends the little-endian image of the value |
| `Wire.GetU64` | src/kvagent/src/router/router.cpp:26-30 | Reads the little-endian value of eight bytes |
| `Wire.ParseRequestIff` | src/kvagent/src/router/router.cpp:36-55 | Parsing yields a request exactly when the buffer begins with that request's wire image, whatever stale bytes follow |
| `Wire.ResponseReadBack` | src/kvagent/src/router/router.cpp:59-89 | A buffer that begins with a response's wire image parses to that response with its node id cut to 40 bytes |
| `Wire.ResponseRoundTripIff` | src/kvagent/src/router/router.cpp:59-89 | A response survives the wire if and only if its node id has at most 40 bytes |
| `WireLayout.RequestIff` | src/kvagent/src/router/router.cpp:36-55 | A buffer parses to a request exactly when its first 44 bytes hold the operation, id, tenant and prefix at their offsets, numbers least significant byte first; serializing yields such bytes |
| `WireLayout.ResponseIff` | src/kvagent/src/router/router.cpp:76-89 | A buffer parses to a response exactly when its first 64 bytes hold the fields at their offsets with a node id of at most 40 bytes |
| `WireLayout.ResponseBytes` | src/kvagent/src/router/router.cpp:59-74 | A serialized response holds its fields at those offsets, the node id cut to 40 bytes and padded with zeros |
| `RouterModel.AnswersAreRecent` | src/kvagent/src/router/router.cpp:128-197 | After every run, an OK answer names a node the resolver returned for that very tenant and prefix, cached no more than one TTL before the lookup |
| `RouterModel.DroppedNodeDisappears` | src/kvagent/src/router/router.cpp:128-197 | If caching an answer takes at most a gap, a node the resolver last named for a tenant and prefix at time t is in no answer for them after t + gap + TTL |
| `RouterModel.VanishesIff` | src/kvagent/src/router/router.cpp:128-197 | In every run a dropped node is out of all answers later than d after it was last named if and only if the cache has no room or d is at least gap + TTL |
| `RouterModel.LastMomentHit` | src/kvagent/src/router/router.cpp:128-197 | A run whose last hit names the node exactly gap + TTL after the resolver last did |
| `RouterModel.CachedEqualsUncached` | src/kvagent/src/router/router.cpp:102-197 | With a resolver that is a fixed function of tenant and prefix the cached router gives the status and node the uncached one gives, after every run and for every operation code |
| `RouterModel.EveryField` | src/kvagent/src/router/router.cpp:102-197 | After every run, which of the answers a request gets, told from operation, bloom answer, cached entry for its tenant and prefix and resolver answer, and all five fields of each |
| `RouterModel.ResolvedIsCached` | src/kvagent/src/router/router.cpp:155-190 | Whatever was resolved, by a read or a write, answers the next request for that tenant and prefix from the cache for one TTL |
| `RouterModel.ExecBacked` | src/kvagent/src/routing_cache/routing_cache.cpp:9-55 | Every cached entry, in every run, was resolved for its key and expires one TTL after it was cached; hits never extend it |
| `Router.RequestRouter.ResolveRead` | src/kvagent/src/router/router.cpp:128-169 | Refines the read decision: bloom, cache, resolver, in that order |
| `Router.RequestRouter.ResolveWrite` | src/kvagent/src/router/router.cpp:171-197 | Refines the write decision: cache, resolver, no bloom, no matched length |
| `Router.RequestRouter.Handle` | src/kvagent/src/router/router.cpp:102-126 | Refines the dispatch on the operation code; an unknown code is an error that leaves the cache alone |
| `Router.RequestRouter.HandleRaw` | src/kvagent/src/router/router.cpp:199-208 | Any buffer that begins with a request is answered with that request's response; a short buffer gets the error response and changes nothing |
| `Router.RequestRouter.ServeOne` | src/kvagent/src/main.cpp:258-261 | One turn of the event loop: the oldest request leaves the submission ring, and its response parses back from the completion ring unless that is full or its slots too small |
| `CacheModel.CacheIsWellFormed` | src/kvagent/src/routing_cache/routing_cache.cpp:9-69 | In every run the list holds each key once, at most capacity entries, ordered by last use, each the latest Put of its key since the last Invalidate or Clear |
| `CacheModel.GetAgreesWithReference` | src/kvagent/src/routing_cache/routing_cache.cpp:35-55 | Against a plain map of latest Puts: a hit is that Put, unexpired; a miss of an unexpired Put means it was dropped as expired earlier or at least capacity other keys were used since |
| `CacheModel.EvictsLeastRecentlyUsed` | src/kvagent/src/routing_cache/routing_cache.cpp:9-33 | A Put drops another key exactly when its own key is new, the cache is full and that key is last, and then every other key was used more recently |
| `CacheModel.PutDropsIff` | src/kvagent/src/routing_cache/routing_cache.cpp:9-33 | The same on any duplicate-free list within capacity |
| `CacheModel.ExecKeeps` | src/kvagent/src/routing_cache/routing_cache.cpp:9-69 | Every sequence of Put, Get, Invalidate and Clear keeps the cache invariant |
| `RoutingCache.LinkedDistinct` | src/kvagent/src/routing_cache/routing_cache.cpp:9-33 | List and index are a duplicate-free bijection |
| `RoutingCache.IndexPoints` | src/kvagent/src/routing_cache/routing_cache.cpp:35-43 | The index holds exactly the listed keys and points each at its own node |
| `RoutingCache.RoutingCache.Put` | src/kvagent/src/routing_cache/routing_cache.cpp:9-33 | Splice or insert, then evict: the list becomes the model's Put, with the counters of the source |
| `RoutingCache.RoutingCache.Get` | src/kvagent/src/routing_cache/routing_cache.cpp:35-55 | The list and answer of the model's Get; an expired entry is erased; hit, miss and expiration counters |
| `RoutingCache.RoutingCache.EvictToFit` | src/kvagent/src/routing_cache/routing_cache.cpp:27-32 | The tail is dropped until the index fits, one eviction counted for each |
| `RoutingCache.RoutingCache.Invalidate` | src/kvagent/src/routing_cache/routing_cache.cpp:57-63 | Removes exactly the key |
| `EtcdStore.WatchersMirrorTheStore` | src/kvstore-node/src/cluster/etcd_client.cpp:51-98 | For every run and watcher, replaying its delivered and then its queued events onto the snapshot taken at WatchPrefix gives exactly the store under its prefix |
| `EtcdStore.LeasedKeysAreLive` | src/kvstore-node/src/cluster/etcd_client.cpp:114-134 | In every run each lease-bound key names a live lease |
| `EtcdStore.EndLeaseExact` | src/kvstore-node/src/cluster/etcd_client.cpp:86-98 | Ending a lease removes exactly its own keys and nothing else |
| `EtcdStore.CompareMeansUntouched` | src/kvstore-node/src/cluster/etcd_client.cpp:166-193 | A successful compare against revision r means the key was neither written nor removed since it received r, also across delete and re-creation |
| `EtcdStore.GoneStaysGone` | src/kvstore-node/src/cluster/etcd_client.cpp:114-193 | A revision a key has left never comes back to it |
| `EtcdStore.PutIfSucceedsIff` | src/kvstore-node/src/cluster/etcd_client.cpp:166-193 | The compare-and-swap writes exactly when the lease is live and the key has the expected revision, zero meaning absent |
| `EtcdEffects.WriteStoresIff` | src/kvstore-node/src/cluster/etcd_client.cpp:114-193 | In every run a Put or PutIfRevision goes through exactly when its lease is none or live and the expected revision is the key's, and then stores exactly its value and lease at the next revision, keeps or sets the create revision, changes no other key and tells each watcher of the key once with the entry replaced; otherwise nothing changes |
| `EtcdEffects.DeleteRemovesIff` | src/kvstore-node/src/cluster/etcd_client.cpp:155-164 | In every run a delete removes exactly its key at the next revision and tells each watcher of it once; of an absent key it does nothing |
| `EtcdEffects.WatchRegisters` | src/kvstore-node/src/cluster/etcd_client.cpp:237-243 | A watch gets a handle never used before for exactly its prefix, with nothing delivered or queued |
| `EtcdEffects.UnwatchedHearsNothing` | src/kvstore-node/src/cluster/etcd_client.cpp:63-84 | In every run an unwatched watcher hears nothing more, not even what is queued for it |
| `EtcdLeases.LeasedKeyLivesIff` | src/kvstore-node/src/cluster/etcd_client.cpp:86-134 | Over every run, a key written under a lease and not touched since is there, as written, exactly as long as the lease |
| `EtcdLeases.LeaseEndRemoves` | src/kvstore-node/src/cluster/etcd_client.cpp:86-98 | Once that lease is revoked or expires the key is gone and every watcher of it has a Delete of that entry queued |
| `EtcdLeases.GrantLivesIff` | src/kvstore-node/src/cluster/etcd_client.cpp:195-203 | Over every run, a lease granted at t is new and survives everything but a revocation and a sweep from t + ttl on, and the first such sweep ends it |
| `EtcdLeases.KeepAliveLivesIff` | src/kvstore-node/src/cluster/etcd_client.cpp:205-215 | The same from a keep-alive, with the ttl of the grant |
| `EtcdStore.ActKeeps` | src/kvstore-node/src/cluster/etcd_client.cpp:51-248 | Every client call, expiry and dispatch keeps the store invariant |
| `EtcdStore.ExecKeeps` | src/kvstore-node/src/cluster/etcd_client.cpp:51-248 | Every run keeps the store invariant |
| `EtcdClient.InMemoryEtcdClient.NotifyLocked` | src/kvstore-node/src/cluster/etcd_client.cpp:51-61 | Queues the event once for every watcher whose prefix the key has |
| `EtcdClient.InMemoryEtcdClient.DispatchOne` | src/kvstore-node/src/cluster/etcd_client.cpp:63-84 | Takes one event off the queue and delivers it to its watcher if that is still registered |
| `EtcdClient.InMemoryEtcdClient.Put` | src/kvstore-node/src/cluster/etcd_client.cpp:114-134 | Refines the model's write; refuses an unknown lease |
| `EtcdClient.InMemoryEtcdClient.Delete` | src/kvstore-node/src/cluster/etcd_client.cpp:155-164 | Refines the model's delete |
| `EtcdClient.InMemoryEtcdClient.PutIfRevision` | src/kvstore-node/src/cluster/etcd_client.cpp:166-193 | Refines the model's compare-and-swap |
| `EtcdClient.InMemoryEtcdClient.LeaseGrant` | src/kvstore-node/src/cluster/etcd_client.cpp:195-203 | Grants a lease that never existed before |
| `EtcdClient.InMemoryEtcdClient.LeaseKeepAlive` | src/kvstore-node/src/cluster/etcd_client.cpp:205-215 | Moves the deadline of a live lease only |
| `EtcdClient.InMemoryEtcdClient.ExpireLeaseLocked` | src/kvstore-node/src/cluster/etcd_client.cpp:86-98 | Removes the lease and each of its keys |
| `EtcdClient.InMemoryEtcdClient.LeaseRevoke` | src/kvstore-node/src/cluster/etcd_client.cpp:217-225 | Ends a known lease as expiry does |
| `EtcdClient.InMemoryEtcdClient.SweepOnce` | src/kvstore-node/src/cluster/etcd_client.cpp:100-112 | Ends every lease whose deadline has passed and no other |
| `EtcdClient.InMemoryEtcdClient.WatchPrefix` | src/kvstore-node/src/cluster/etcd_client.cpp:237-243 | Registers under a new handle with the current snapshot as base |
| `ViewRefresh.NoLostWakeup` | src/kvagent/src/router/cluster_view.cpp:72-140 | Whenever no event, callback or request is on its way and the loop waits, the last load began after the last change since subscription, and if it succeeded the resolver holds exactly that view's routable nodes |
| `ViewRefresh.ChangeIsQueued` | src/kvagent/src/router/etcd_view_loader.cpp:37-48 | The view cannot change without an event for the subscription being queued |
| `ViewRefresh.SubscriptionGapIff` | src/kvagent/src/main.cpp:232-248 | After subscribing, in every quiet state the last load began on the current view if and only if, at that moment, a load was still to come or the last one had begun on the view of then; from such a moment a quiet state whose last refresh succeeded has exactly the current view's nodes in the resolver |
| `ViewFailures.RefreshCurrentIff` | src/kvagent/src/router/cluster_view.cpp:72-92 | For any set of values that may be published and over all runs, restarts of the loop included: subscribing at a safe moment, every quiet state has exactly the current view's nodes in the resolver if and only if every such value parses and, where loads may fail, names no routable node |
| `ViewFailures.FirstLoadKeepsNone` | src/kvagent/src/router/cluster_view.cpp:72-92 | A first load that fails or reads a malformed view leaves everything quiet and the resolver empty, although the subscription missed nothing |
| `ViewRefresh.ActKeeps` | src/kvagent/src/router/cluster_view.cpp:72-140 | Every step of store, dispatcher, subscription and loop keeps the refresh invariant |
| `ViewRefresh.ExecKeeps` | src/kvagent/src/router/cluster_view.cpp:72-140 | Every run keeps the refresh invariant |
| `ClusterView.InstalledIff` | src/kvagent/src/router/cluster_view.cpp:11-57 | A node is installed exactly when some entry of the view is an object with that non-empty id, a state that in lower case does not contain the word drain, and that weight, 1.0 when none or not positive |
| `ClusterView.InstalledInOrder` | src/kvagent/src/router/cluster_view.cpp:24-56 | The installed nodes are those of exactly the entries that install anything, one for each, in view order |
| `ViewProgress.InstallExact` | src/kvagent/src/router/cluster_view.cpp:72-92 | A refresh whose load failed or read no object with an array of nodes keeps the installed nodes and counts as failed; any other installs exactly the view's nodes and counts as done |
| `ViewProgress.ChangeIsServed` | src/kvagent/src/router/cluster_view.cpp:113-140 | After every run with the loop waiting and a change or request on its way, steps of dispatcher, callback and loop alone, no timeout among them, reach a quiet state with the current view read and, if it parses, installed |
| `ViewProgress.StopRuns` | src/kvagent/src/router/cluster_view.cpp:100-110 | Stop ends a waiting loop without another load |
| `ClusterView.CollectNodes` | src/kvagent/src/router/cluster_view.cpp:24-56 | The accumulating loop collects exactly the routable nodes in view order |
| `Base64.B64Encode` | src/kvstore-node/src/cluster/http_etcd_client.cpp:57-72 | The 32-bit accumulator computes the three-byte-group encoding with padding of section 4 of RFC 4648 |
| `Base64.B64Decode` | src/kvstore-node/src/cluster/http_etcd_client.cpp:74-97 | The accumulator decodes the digits of the input, skipping everything else |
| `Base64.RoundTrip` | src/kvstore-node/src/cluster/http_etcd_client.cpp:57-97 | Decoding the encoding of any byte string gives it back |
| `Base64.SymIsAlphabet` | src/kvstore-node/src/cluster/http_etcd_client.cpp:54-55 | The alphabet is that of table 1 of RFC 4648 |
| `Base64.EncodedShape` | src/kvstore-node/src/cluster/http_etcd_client.cpp:57-72 | Four characters for every three bytes begun, padding exactly where bytes are missing from the last group |
| `Base64.EncodeThenDecode` | src/kvstore-node/src/cluster/http_etcd_client.cpp:57-97 | The two loops, run one after the other, return their input |
| `PrefixRange.PrefixRangeEnd` | src/kvstore-node/src/cluster/http_etcd_client.cpp:216-228 | The backward loop computes the successor of the prefix: nothing for all 0xff, a zero byte for the empty prefix |
| `PrefixRange.IntervalIsPrefix` | src/kvstore-node/src/cluster/http_etcd_client.cpp:216-228 | For every prefix with a byte below 0xff, the keys from prefix up to its range end are exactly those that start with it |
| `PrefixRange.PlainIntervalIff` | src/kvstore-node/src/cluster/etcd_client.cpp:318-330 | Read as a plain interval, the range is the prefix set for every key if and only if the prefix has a byte below 0xff |
| `PrefixRange.EtcdRangeIff` | src/kvstore-node/src/cluster/etcd_client.cpp:318-330 | Under etcd's own reading of range ends it is so if and only if the prefix is empty or has a byte below 0xff |
| `PollWatch.PollingMirrorsIff` | src/kvstore-node/src/cluster/http_etcd_client.cpp:446-480 | Over every sequence of polls, failed ones included, replaying the events gives the last state read if and only if every round's equal revisions meant equal entries |
| `PollWatch.PollReplays` | src/kvstore-node/src/cluster/http_etcd_client.cpp:457-480 | The events of one round turn the last state into the merge of both states |
| `PollWatch.MergedIff` | src/kvstore-node/src/cluster/http_etcd_client.cpp:463-479 | That merge is the state just read if and only if equal revisions mean equal entries |
| `PollWatch.SilentIff` | src/kvstore-node/src/cluster/http_etcd_client.cpp:463-479 | A round emits nothing exactly when no key appeared, vanished or changed its revision |
| `PollWatch.EventsExact` | src/kvstore-node/src/cluster/http_etcd_client.cpp:462-479 | A round emits exactly one put for each key new or with a new revision, with its entry and the one it replaced, and one delete for each key gone, with its last entry |
| `PollWatch.PollWatcher.constructor` | src/kvstore-node/src/cluster/http_etcd_client.cpp:417-426 | The seed holds each key of the first read with an entry read for it, or nothing when that read failed |
| `PollWatch.PollWatcher.Index` | src/kvstore-node/src/cluster/http_etcd_client.cpp:458-460 | Entries are indexed by key, a later one replacing an earlier one |
| `PollWatch.PollWatcher.DiffPuts` | src/kvstore-node/src/cluster/http_etcd_client.cpp:462-472 | Emits one put for each new or changed key, in iteration order |
| `PollWatch.PollWatcher.DiffDeletes` | src/kvstore-node/src/cluster/http_etcd_client.cpp:473-479 | Emits one delete for each vanished key, in iteration order |
| `PollWatch.PollWatcher.PollOnce` | src/kvstore-node/src/cluster/http_etcd_client.cpp:446-481 | One round: the new state holds each key read with an entry read for it; a failed read keeps the state and emits nothing |
| `NodeEviction.RefcountCountsReaders` | src/core-abi/src/headless_node.cpp:358-375 | In every interleaving of lookups, releases, seals and evictions, an unclaimed leaf's refcount is one plus its live readers, and a claimed leaf is at zero with none |
| `NodeEviction.ClaimedNeverHandedOut` | src/core-abi/src/headless_node.cpp:358-360 | A claimed leaf is under no handle, and a lookup that found it misses |
| `NodeEviction.OneEventPerLeaf` | src/core-abi/src/headless_node.cpp:1011-1027 | No leaf has two EVICT events |
| `NodeEviction.ClaimIsPermanent` | src/core-abi/src/headless_node.cpp:1010-1015 | A claim is never undone |
| `NodeProgress.LookupRuns` | src/core-abi/src/headless_node.cpp:356-375 | After every interleaving a lookup by itself takes one hold on the indexed, unclaimed leaf and registers a new handle, or changes nothing |
| `NodeProgress.ReleaseRuns` | src/core-abi/src/headless_node.cpp:856-879 | A release by itself erases its handle and gives up exactly its hold |
| `NodeProgress.EvictRuns` | src/core-abi/src/headless_node.cpp:999-1029 | An eviction by itself claims, removes and announces an indexed leaf exactly when nobody reads it |
| `NodeEviction.RemovesClaimedLeafIff` | src/core-abi/src/headless_node.cpp:999-1029 | What an evictor removes is the unread leaf it claimed if and only if no Seal on that path came between its find and its remove; if the path is gone it removes nothing |
| `NodeEviction.SealBetweenRemovesReadLeaf` | src/core-abi/src/headless_node.cpp:1004-1018 | An interleaving with such a Seal: the evictor removes a leaf that is being read, under the old leaf's event |
| `NodeReadRaces.ReadLeavesStayIff` | src/core-abi/src/headless_node.cpp:320-375 | An interleaving keeps every leaf being read in the index throughout if and only if it has no Seal of a path whose leaf is read, no evictor's remove of such a path, and no lookup acquiring a leaf replaced since it was found |
| `NodeReadRaces.StepIff` | src/core-abi/src/headless_node.cpp:999-1029 | The same for one atomic step |
| `NodeEviction.ActKeeps` | src/core-abi/src/headless_node.cpp:320-375 | Every atomic step keeps the refcount invariant |
| `NodeEviction.ExecKeeps` | src/core-abi/src/headless_node.cpp:963-1029 | Every schedule keeps the refcount invariant |
| `NodeSafety.SlotsMatchHandles` | src/core-abi/src/headless_node.cpp:395-456 | After every sequence of operations with any outcome: every pinned slot is free or held, held slots match live ingest handles one to one, and every reservation no longer live was returned exactly once |
| `NodeSafety.DeadHandleRefused` | src/core-abi/src/headless_node.cpp:856-879 | Once released or sealed, a handle is refused by Release, Publish, Seal and SealByChunkPath in every continuation, without effect |
| `NodeSafety.DeadStaysDead` | src/core-abi/src/headless_node.cpp:364-372 | A handle number is never issued again |
| `NodeRaces.SlotsConserved` | src/core-abi/src/headless_node.cpp:395-438 | In every interleaving of the steps of Reserve, Seal, Release and the pool's sweeper, each pinned slot is in exactly one place: free stack, pool entry, a thread's hands or the sweeper's; each reservation is in the pool or was erased from it, once |
| `NodeRaces.QuietMatches` | src/core-abi/src/headless_node.cpp:603-763 | Whenever no call is under way, pool entries match live handles one to one, except that a live handle may have lost its entry to the sweeper |
| `NodeRaces.SoundIff` | src/core-abi/src/headless_node.cpp:720-745 | After any run without overlaps, a step keeps all further such runs free of double commits and of Seals that lose their slot before they commit, if and only if it is not a Seal of a handle that another Seal works on or whose reservation is gone, nor a Release or sweep of a handle a Seal has yet to commit |
| `NodeRaces.BothCommit` | src/core-abi/src/headless_node.cpp:603-718 | Two Seals of one handle, both past the copy of its state, both commit it |
| `NodeRaces.GoneStaysGone` | src/core-abi/src/headless_node.cpp:856-879 | In every interleaving a handle once gone is never live again |
| `NodeProgress.ReserveRuns` | src/kvstore-node/src/ingest/mutable_buffer.cpp:22-31 | After every interleaving a Reserve by itself takes the top of the free stack under a new reservation and handle, or finds it empty |
| `NodeProgress.SealRuns` | src/core-abi/src/headless_node.cpp:603-745 | By itself a Seal of a live handle commits it once and gives slot and handle back, and a Release does so without committing |
| `NodeProgress.CleanupFinishes` | src/kvstore-node/src/ingest/mutable_buffer.cpp:44-55 | From any state a thread that is cleaning up finishes by itself, with slot, reservation and handle given back |
| `NodeProgress.FailuresGiveBack` | src/core-abi/src/headless_node.cpp:413-424 | A Seal with nothing to commit and a Reserve whose slot is too small give everything back |
| `NodeProgress.SweepRuns` | src/kvstore-node/src/ingest/mutable_buffer.cpp:62-77 | The sweeper takes an overdue entry out, leaves its handle and gives its slot back |
| `NodeHandles.ActKeeps` | src/kvstore-node/src/ingest/mutable_buffer.cpp:22-77 | Every step of every thread and of the sweeper keeps the account of slots, reservations and handles |
| `NodeSafety.RefcountsCountHandles` | src/core-abi/src/headless_node.cpp:856-879 | After every sequence of operations an indexed leaf's refcount is one plus its read handles |
| `NodeReaders.ReadLeavesStayIff` | src/kvstore-node/src/prefix/art_index.cpp:169-210 | A run keeps every leaf under a read handle in the index throughout if and only if it never seals, with the index accepting, a path whose leaf is being read |
| `NodeReaders.StepIff` | src/kvstore-node/src/prefix/art_index.cpp:169-210 | The same for one operation after any run that kept them; evictions and sweeps never take a read leaf |
| `NodeReaders.SealTwiceStrandsReader` | src/core-abi/src/headless_node.cpp:856-879 | Sealing any prompt, looking it up and sealing it again leaves the read handle, through which Release will go, on a leaf that is out of the index |
| `NodeSafety.SweepKeepsExactly` | src/core-abi/src/headless_node.cpp:1055-1080 | One sweep pass keeps, in order, exactly the entries whose own leaf is still indexed and still read |
| `NodeSafety.SweepRemovesExactly` | src/core-abi/src/headless_node.cpp:1059-1074 | It takes out of the index exactly the paths of entries whose own leaf is unread |
| `NodeSafety.SweepEmptiesQueue` | src/core-abi/src/headless_node.cpp:1034-1082 | After every run, one pass with no read handle left empties the deferred queue |
| `NodeEvictKeys.EvictsOwnLeafIff` | src/core-abi/src/headless_node.cpp:656-659 | Over all runs of seals, the leaf DRAM eviction of a key reaches is one sealed under that key if and only if no path may be sealed under two keys |
| `NodeEvictKeys.TwoKeysShareAPath` | src/core-abi/src/headless_node.cpp:963-994 | For any path and two keys, a run in which evicting one key reaches the leaf of the other |
| `NodeEvictKeys.EvictionTakesVictim` | src/core-abi/src/headless_node.cpp:963-994 | What evicting a key reaches: an unread leaf is removed with its event, a read one deferred, nothing else changes |
| `NodeEvictPaths.EvictsWholeKeyIff` | src/core-abi/src/headless_node.cpp:656-659 | Over all runs of seals, a DRAM eviction of a key leaves every indexed leaf of that key queued for deferred eviction if and only if no key may be sealed at two paths, the empty one included |
| `NodeEvictPaths.TwoPathsForOneKey` | src/core-abi/src/headless_node.cpp:656-659 | For any key and two paths, a run after which evicting the key misses a leaf of it |
| `NodeEvictPaths.UnreadKeyGone` | src/core-abi/src/headless_node.cpp:963-1080 | With one path per key, evicting a key nobody reads and one sweep pass leave no leaf of it in the index |
| `NodeSafety.SealThenLookup` | src/core-abi/src/headless_node.cpp:320-375 | After every run, a sealed prompt is found by a lookup of any extension of it in its namespace, matching at least all its whole chunks |
| `NodeSafety.ChunkifyPrefix` | src/kvstore-node/src/prefix/lpm.cpp:10-27 | The chunk path of a prompt is a prefix of that of any extension, one chunk for each whole 16 tokens |
| `NodeHistory.ChunkifyAt` | src/kvstore-node/src/prefix/lpm.cpp:10-27 | Chunk i of a prompt is the hash of its tokens 16 i to 16 i + 15, and there is one for each whole 16 tokens |
| `NodeLookups.LookupSoundIff` | src/core-abi/src/headless_node.cpp:320-375 | Over all runs that seal prompts, every lookup that hits matches whole chunks and names locator and bytes of the last prompt sealed in its namespace whose whole chunks are exactly the tokens matched, and every other changes nothing, if and only if no two chunks hash alike |
| `NodeLookups.CollisionHits` | src/kvstore-node/src/prefix/lpm.cpp:18-24 | Two chunks that hash alike: a prompt of the one is found by a lookup of the other |
| `NodeLookups.LookupIsComplete` | src/core-abi/src/headless_node.cpp:320-375 | After every run a lookup matches at least as many tokens as any indexed prefix of its prompt in its namespace has |
| `NodeHistory.WatermarkIsGreatest` | src/kvstore-node/src/ingest/watermark.cpp:14-31 | In every run a live reservation keeps its locator and namespace, and its watermark is the greatest value published through its handle since its Reserve, zero if none |
| `NodeHistory.SealRecords` | src/core-abi/src/headless_node.cpp:603-745 | In every run an accepted Seal indexes, at the path of its prompt in the reservation's namespace, one new leaf with the reservation's locator and exactly the bytes published, announces it, and changes nothing else there |
| `NodeHistory.SealByPathRecords` | src/core-abi/src/headless_node.cpp:751-763 | The same for a Seal by chunk path, at any path but the empty one |
| `NodeHistory.FailedSealRecordsNothing` | src/core-abi/src/headless_node.cpp:680-735 | A Seal of fewer than 16 tokens, a refused one and one at an empty path index and announce nothing, and what they answer |
| `NodeHistory.ReserveAnswers` | src/core-abi/src/headless_node.cpp:395-438 | After every run, exactly when Reserve succeeds and with what it fails; a failure changes no handle, reservation or watermark |
| `NodeHistory.EndGivesBack` | src/core-abi/src/headless_node.cpp:856-879 | In every run Release and every Seal, accepted or not, give the reservation's slot back and forget its handle and watermark |
| `NodeHistory.ReaderGivesUp` | src/core-abi/src/headless_node.cpp:856-879 | In every run a reader's Release gives up exactly its hold |
| `NodeHistory.AnswerCodes` | src/core-abi/src/headless_node.cpp:720-763 | What each call answers for an unknown handle, a reader's and a reservation's |
| `NodeModel.Longest` | src/kvstore-node/src/prefix/art_index.cpp:273-307 | The length of the longest stored prefix: that prefix is stored and no longer one is |
| `HeadlessNode.HeadlessNode.PoolReserve` | src/kvstore-node/src/ingest/mutable_buffer.cpp:22-31 | Takes the last free slot under a new ingest handle, at watermark zero |
| `HeadlessNode.HeadlessNode.DropAndRelease` | src/kvstore-node/src/ingest/mutable_buffer.cpp:44-55 | Drops the watermark and returns the slot of a live ingest handle; nothing for a dead one |
| `HeadlessNode.HeadlessNode.Reserve` | src/core-abi/src/headless_node.cpp:395-438 | Refines the model; zero bytes, an exhausted pool and an oversize request are refused, the last after giving its slot back |
| `HeadlessNode.HeadlessNode.Publish` | src/core-abi/src/headless_node.cpp:444-456 | Refines the model; no watermark ever goes back |
| `HeadlessNode.HeadlessNode.SealCommit` | src/core-abi/src/headless_node.cpp:603-718 | Refines the model; the cleanup runs on every exit |
| `HeadlessNode.HeadlessNode.Seal` | src/core-abi/src/headless_node.cpp:720-745 | Refines the model; fewer than 16 tokens give the slot back and fail |
| `HeadlessNode.HeadlessNode.SealByChunkPath` | src/core-abi/src/headless_node.cpp:751-763 | Refines the model; an unknown handle is not found |
| `HeadlessNode.HeadlessNode.Walk` | src/kvstore-node/src/prefix/art_index.cpp:273-307 | The downward walk finds the longest stored prefix |
| `HeadlessNode.HeadlessNode.Lookup` | src/core-abi/src/headless_node.cpp:320-375 | Refines the model; a hit registers a new read handle |
| `HeadlessNode.HeadlessNode.Release` | src/core-abi/src/headless_node.cpp:856-879 | Refines the model; a slot or a reader's hold is given back |
| `HeadlessNode.HeadlessNode.TryEvictNow` | src/core-abi/src/headless_node.cpp:999-1029 | Claim, remove and event as one step, exactly when the leaf is there and unread |
| `HeadlessNode.HeadlessNode.OnDramEvict` | src/core-abi/src/headless_node.cpp:963-994 | Refines the model: evict now, defer a read leaf, ignore an unknown key or empty path |
| `HeadlessNode.HeadlessNode.SweepPass` | src/core-abi/src/headless_node.cpp:1046-1080 | The queue is swapped out, retried and rebuilt, and holds exactly the entries still read |
| `WalFormat.ParseEncoded` | src/kvstore-node/src/persist/state_wal.cpp:67-93 | A whole record parses back to its key and blob, whatever follows, for any checksum function |
| `WalFormat.CutIsTorn` | src/kvstore-node/src/persist/state_wal.cpp:67-70 | A record cut at any byte is recognised as torn |
| `WalFormat.RecoversEveryWholeRecord` | src/kvstore-node/src/persist/state_wal.cpp:54-100 | Replaying whole records and any proper prefix of one more recovers exactly the whole ones and truncates after them |
| `WalFormat.ReplayLog` | src/kvstore-node/src/persist/state_wal.cpp:65-93 | The same for any torn tail, onto any map |
| `WalFormat.PutsLast` | src/kvstore-node/src/persist/state_wal.cpp:78-93 | A replayed key has the blob of its last record |
| `WalLayout.EncodedIff` | src/kvstore-node/src/persist/state_wal.cpp:127-147 | A record's image is length, operation, key, identity, blob length, blob and checksum of all but the length, at their offsets, and nothing else is |
| `WalLayout.ParsedIff` | src/kvstore-node/src/persist/state_wal.cpp:67-93 | Replay takes a put off the front of a buffer exactly when a record with that key and blob lies there, checksum included |
| `WalLayout.CorruptEndsReplay` | src/kvstore-node/src/persist/state_wal.cpp:67-76 | Whole records before one whose checksum does not match replay to exactly themselves, and it is cut off with everything behind it |
| `WalLayout.OtherIsSkipped` | src/kvstore-node/src/persist/state_wal.cpp:76-93 | A record of another operation with a matching checksum is passed over |
| `WalFormat.ShortRecordSwallows` | src/kvstore-node/src/persist/state_wal.cpp:119-153 | After a short write, records appended behind it are all lost at the next open as long as they fit inside the announced length |
| `WalFormat.ShortWriteHarmlessIff` | src/kvstore-node/src/persist/state_wal.cpp:149-153 | A failed write of w bytes leaves every later append recoverable if and only if w is zero |
| `StatePlane.AckedSurvives` | src/core-abi/src/headless_node.cpp:769-817 | With one value per key and appends that write nothing or are whole and synced, in every run of puts, reads, evictions and crashes a read of any acknowledged key returns its value, also right after one more crash at any byte of a record in flight |
| `StatePlane.ResidentIsDurable` | src/core-abi/src/headless_node.cpp:776-785 | In every such run each DRAM entry equals its copy in the durable bytes of the log |
| `StatePlane.Recovers` | src/kvstore-node/src/persist/state_wal.cpp:54-100 | Recovery from any cut of a log of whole records keeps exactly the records wholly before the cut |
| `StatePlane.PartWriteLosesAcked` | src/kvstore-node/src/persist/state_wal.cpp:119-160 | One part-written append, at any byte, loses a later acknowledged put at the next crash |
| `StatePlane.FailedSyncLosesAcked` | src/kvstore-node/src/persist/state_wal.cpp:119-160 | After one failed fsync a crash may lose every later acknowledged put |
| `StatePlane.RecoversFlight` | src/kvstore-node/src/persist/state_wal.cpp:54-100 | Recovery from a crash in the middle of an append, at any byte, keeps every record before it and takes in the one in flight only if it is whole |
| `StateFailures.SurvivesIff` | src/kvstore-node/src/persist/state_wal.cpp:119-160 | Acknowledged puts survive every run and crash, whatever the values, if and only if no fsync may fail and no failed write may leave a byte |
| `StateFailures.FailedAppendHidden` | src/kvstore-node/src/persist/state_wal.cpp:127-160 | An append that fails in its write or its sync shows in no read, only in the file |
| `StateFailures.WholeAppendShows` | src/kvstore-node/src/persist/state_wal.cpp:149-160 | An append that succeeds is acknowledged, indexed and on its way into DRAM |
| `StateFailures.CrashLosesMemory` | src/kvstore-node/src/persist/state_wal.cpp:51-100 | A crash loses memory and keeps what a prefix of the file replays to |
| `StateValues.ResidentDurableIff` | src/core-abi/src/headless_node.cpp:769-817 | For any set of records that may be put, every run of whole appends keeps each DRAM entry equal to its durable copy if and only if no key has two values |
| `StateValues.ReadsLatestIff` | src/core-abi/src/headless_node.cpp:769-817 | Under the same condition, and no other, every read returns the value last acknowledged |
| `StateValues.CrossedPuts` | src/core-abi/src/headless_node.cpp:779-784 | Two puts of one key, appended in one order and staged in the other, leave DRAM and log apart |
| `StateValues.SlowReadGoesStale` | src/core-abi/src/headless_node.cpp:788-817 | So does a read that fetched the old value and stages it after a later put, although the puts never overlap |
| `StatePlane.ActKeeps` | src/core-abi/src/headless_node.cpp:769-817 | Every step, crashes included, keeps the state-plane invariant |
| `StateWal.StateWal.Open` | src/kvstore-node/src/persist/state_wal.cpp:51-113 | The replay loop computes the replayed map and cuts the file after the last good record |
| `StateWal.StateWal.Append` | src/kvstore-node/src/persist/state_wal.cpp:127-160 | Writes the record image or a prefix of it; indexes only after a whole write and a sync; refuses a record over 32 bits |
| `StateWal.StatePlane.StatePut` | src/core-abi/src/headless_node.cpp:769-786 | Succeeds exactly when there is a log and the append was whole and synced; otherwise nothing is staged or indexed |
| `StateWal.StatePlane.StateGet` | src/core-abi/src/headless_node.cpp:788-817 | DRAM first, then the log, staged again; without a log the tier is down |
| `OtlpProtocol.PostedInOrderOnce` | src/core/common/trace_otlp.cpp:255-295 | In every run the posted spans, the batch in flight and the queue are, in order, exactly the spans exported, and the flush counter never exceeds the number posted |
| `OtlpProtocol.ExitsDrained` | src/core/common/trace_otlp.cpp:266-269 | The worker exits only with an empty queue and every span posted |
| `OtlpProtocol.TakesOldest` | src/core/common/trace_otlp.cpp:266-281 | The worker takes the oldest spans, as many as there are up to the batch size, and exits only when stopped with nothing queued |
| `OtlpProtocol.FlushSteps` | src/core/common/trace_otlp.cpp:319-331 | A Flush waits for what had been exported when it began and leaves exactly when that is flushed or the exporter stops |
| `OtlpProtocol.FlushMeansPosted` | src/core/common/trace_otlp.cpp:319-331 | A Flush that can return without stop finds every span exported before it began posted |
| `OtlpProtocol.FlushSureIff` | src/core/common/trace_otlp.cpp:319-331 | A Flush is sure to find everything exported before it posted, Stop included, if and only if everything was posted when it began |
| `OtlpProtocol.FlushReturnsIff` | src/core/common/trace_otlp.cpp:270-293 | Without stop, the worker alone brings a waiting Flush to its return if and only if the batch size is positive or nothing had been exported |
| `OtlpProtocol.ShutdownDrainsIff` | src/core/common/trace_otlp.cpp:299-306 | After stop the worker ends by itself with everything posted if and only if the batch size is positive or nothing is queued |
| `OtlpProtocol.ActKeeps` | src/core/common/trace_otlp.cpp:255-331 | Every step of callers and worker keeps the exporter invariant |
| `OtlpExporter.OtlpHttpExporter.Export` | src/core/common/trace_otlp.cpp:310-317 | Appends the span behind everything posted and queued |
| `OtlpExporter.OtlpHttpExporter.WorkOnce` | src/core/common/trace_otlp.cpp:258-294 | One round posts one batch in order, loses nothing, and exits exactly when stopped with an empty queue |
| `OtlpExporter.OtlpHttpExporter.Shutdown` | src/core/common/trace_otlp.cpp:299-308 | With a positive batch size the drain ends with everything posted and flushed; with zero and a queue it never ends and posts nothing; no span is lost |
| `LayerModel.SaveThenLoadIff` | src/adapters/vllm/kvcache_vllm/layer_accumulator.py:60-98 | For a duplicate-free registered order and equal-sized registered layers arriving in any order with repeats, splitting the drained blob gives every arrived layer's destination its own bytes, whatever it held, if and only if every registered layer arrived |
| `LayerAlign.LayerComesBackIff` | src/adapters/vllm/kvcache_vllm/layer_accumulator.py:84-98 | For any set of arrived names, registered or not, an arrived layer gets its own bytes back for all contents if and only if at least as many layers arrived as are registered and, unless it is the first, every layer registered before it arrived and the even cut is one layer long |
| `LayerAlign.ArrivedLayerComesBackIff` | src/adapters/vllm/kvcache_vllm/layer_accumulator.py:60-70 | The same if-and-only-if for layers as they arrive, under any names in any order with repeats: the layer gets the last bytes that arrived for it |
| `LayerModel.BufferedIsLast` | src/adapters/vllm/kvcache_vllm/layer_accumulator.py:60-70 | The buffer holds for each layer exactly the last non-empty value that arrived |
| `LayerModel.EffectiveMembers` | src/adapters/vllm/kvcache_vllm/layer_accumulator.py:121-125 | The joining order names exactly the buffered layers |
| `LayerModel.SortedNamesSorted` | src/adapters/vllm/kvcache_vllm/layer_accumulator.py:124-124 | Unregistered layers follow in strictly increasing name order |
| `LayerModel.SortedNamesUnique` | src/adapters/vllm/kvcache_vllm/layer_accumulator.py:124-124 | That listing is the only one, so the wire image does not depend on arrival |
| `LayerModel.LeIff` | src/adapters/vllm/kvcache_vllm/layer_accumulator.py:124-124 | Names are ordered by prefix, or by the first character that differs |
| `LayerModel.JoinAt` | src/adapters/vllm/kvcache_vllm/layer_accumulator.py:97-97 | In a join of equal-sized layers the i-th stretch is the i-th layer |
| `LayerModel.MissingBreaks` | src/adapters/vllm/kvcache_vllm/layer_accumulator.py:196-200 | With a registered layer missing, no arrived layer is restored for every prior destination |
| `LayerBuffers.RetainsIncompleteIff` | src/adapters/vllm/kvcache_vllm/layer_accumulator.py:100-111 | The documented retention of incomplete requests by drain_all holds if and only if there are none |
| `LayerBuffers.DrainAllForgetsUnbound` | src/adapters/vllm/kvcache_vllm/layer_accumulator.py:92-95 | A buffered request without tokens that drain_all forgets |
| `LayerBuffers.WrittenOnce` | src/adapters/vllm/kvcache_vllm/layer_accumulator.py:192-201 | A destination owned by one request gets exactly that request's slice |
| `LayerBuffers.DrainMeans` | src/adapters/vllm/kvcache_vllm/layer_accumulator.py:84-98 | Which requests a drain commits, that it returns their tokens with the join of all their layers, and what it leaves |
| `LayerBuffers.LayerAccumulator.Accumulate` | src/adapters/vllm/kvcache_vllm/layer_accumulator.py:60-70 | The request's buffer follows its arrivals; an empty payload changes nothing, no other request changes |
| `LayerBuffers.LayerAccumulator.DrainRequest` | src/adapters/vllm/kvcache_vllm/layer_accumulator.py:84-98 | Pops both sides always; returns tokens and join exactly when both were there and non-empty |
| `LayerBuffers.LayerAccumulator.DrainAll` | src/adapters/vllm/kvcache_vllm/layer_accumulator.py:100-111 | Returns exactly the complete requests and empties the buffer of all |
| `LayerBuffers.LayerSplitter.DrainLayer` | src/adapters/vllm/kvcache_vllm/layer_accumulator.py:178-202 | Each served destination gets the layer's slice up to its own length and keeps its tail; counts the served requests; requests sharing a buffer overwrite in iteration order |
| `LayerBuffers.CopyPrefix` | src/adapters/vllm/kvcache_vllm/layer_accumulator.py:197-200 | The slice assignment: fill to the shorter length, keep the rest |

## Left out

- Mapping, file descriptors, doorbells, `Open` and `pop_for` of the ring: plumbing around the modelled steps.
- C++ memory orderings and 64-bit wrap-around of ring positions: memory is sequentially consistent and tickets are unbounded.
- StatePlane.AckedSurvives: one value per key and appends that write nothing or are whole and synced; `StateValues.ReadsLatestIff` and `StateFailures.SurvivesIff` show that neither can be dropped. A crash keeps a prefix of the file; other damage beyond the synced bytes is not modelled.
- StatePlane.FailedSyncLosesAcked: what a failed fsync leaves on disk is undefined; the model takes it that nothing from there on is sure until the next open.
- WalFormat.ShortWriteHarmlessIff: w is below 2 GiB, the most one write moves.
- StateFailures.SurvivesIff: stray lengths are below 2 GiB, for the same reason.
- LayerModel.SaveThenLoadIff: all arriving layers are registered; `LayerAlign.ArrivedLayerComesBackIff` covers the others. Both take layers of one size, as the splitter assumes.
- The radix tree behind the prefix index: the model has its path-to-leaf map and longest-prefix rule, not its nodes, chains and epochs.
- The RocksDB commit path, the index's own log and its failures, and the policy that could decline a seal: the headless node runs without them.
- NodeSafety.SlotsMatchHandles: whole operations without the pool's TTL sweeper; `NodeRaces.SlotsConserved` and `NodeRaces.QuietMatches` have the sweeper and every interleaving.
- NodeRaces.SoundIff: staging and index insert of a Seal are one step, and watermarks and read handles are not in this machine.
- NodeEvictKeys.EvictsOwnLeafIff: at least one pinned slot of at least one byte, because without them nothing can be sealed.
- NodeEvictPaths.EvictsWholeKeyIff: the same.
- NodeLookups.LookupSoundIff: runs without seals by chunk path, whose paths need not come from any prompt, on a node with a slot.
- The 2Q queues of the DRAM tier, NVMe and cold tiers, Fetch and the transport: DRAM is a cache that may evict at any time.
- Memory reclamation: leaves are numbered and never reused; which readers hold a leaf that is out of the index, and so up for deletion, is `NodeReaders.ReadLeavesStayIff`.
- JSON parsing, gRPC, curl, retries and timeouts, metrics, logging and span encoding: no hard property.
- The etcd clients' lease TTL queries and prefix listings: easy members.
- The drain gate, the Go control plane, and the engine adapters around the layer buffers.
