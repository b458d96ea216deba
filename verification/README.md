# ShardCache in Dafny

A model of ShardCache, a leaderless replicated key-value store, and proofs of what it promises. Each
part of the system that changes things in place is a class or a method with loops, proved against
functions on values; what holds over whole runs is proved about those functions. `dafny verify
dfyconfig.toml` checks everything.

| part | files |
|---|---|
| optional values, machine words | `Options`, `Words` |
| last-writer-wins order, register histories | `Versions`, `Histories` |
| replication protocol, linearizability, exact limits | `Quorums`, `Replication`, `Linearization`, `QuorumLimits` |
| hybrid clock | `HybridClock` |
| anomaly detectors of the chaos harness | `Anomalies` |
| storage engine and its snapshots | `LruLists`, `CacheRuns`, `Caches`, `Snapshots`, `Restores` |
| placement | `Rings`, `RingWalks`, `ConsistentHash`, `RoutingTables` |
| wire path | `Decimals`, `Resp`, `Replies`, `Commands`, `Sessions`, `SessionSplits`, `PeerChannels`, `ReplicaWire` |
| membership, hints, rebalancing | `Membership`, `Hints`, `Rebalance` |

## How to read the model

- Strings are sequences of characters standing for bytes. Where a byte's value matters (snapshot
  checksums) characters are required to be below 256.
- Clock readings, hash functions, command handlers, the peer's answers, send outcomes and the results
  of asynchronous operations are parameters or events, unrestricted unless a lemma says otherwise.
- The replication machine keeps every message: a replica may handle any request ever sent, late,
  repeatedly or never. That covers slow calls, read repair and hint replay. Its hypotheses are one fixed
  owner set, no memory loss, and no eviction or expiry.
- Arithmetic wraps where the source's does: clock words, member generations, checksums, TTL
  multiplication, 16-bit node numbers. Elsewhere integers are unbounded.
- A `get` that promotes takes its lock twice, and other operations may come between; the cache's step
  machine has one step for each section, and remembers the hits still waiting for their promotion.
- A cluster is a set of nodes, of which some own the key; any node may coordinate, and one that owns the
  key uses its own copy first.
- Hints carry a serial number the source does not have, to speak about insertion order.

## What turned out to hold only under a condition

Each of these is proved as an if-and-only-if, unless the sentence says otherwise.

- All runs are linearizable if and only if the resolved quorums intersect and the cluster is in
  linearizable mode or has a single node (`QuorumLimits.LinearizableExactly`). Reads see acknowledged
  writes, in either mode, if and only if the quorums intersect (`QuorumLimits.FreshReadsExactly`).
- Removing a node restores the ring that was there before it was added if and only if none of its
  positions was taken (`Rings.RemoveUndoesAdd`), adding back a removed node if and only if all its
  positions were its own (`Rings.AddUndoesRemove`), and the ring depends on its members only, over all
  histories, if and only if no two nodes share a position (`Rings.MembersOnlyExactly`): colliding virtual
  nodes overwrite and then erase each other.
- Every row of the routing table is the walk of the ring if and only if at most 65536 nodes own a point, or
  the replication factor is 0 (`RoutingTables.RoutingTable.CorrectExactly`): node numbers are cut to 16 bits.
- An inline line is refused only while its newline is missing, and a read delivers at most 16 KiB. So what a
  client's bytes do depends on how they are cut into reads if and only if a request reached starts with an
  inline line whose newline lies beyond 64 KiB and before 80 KiB, except a blank one that is followed by
  the same refusal however it is cut (`SessionSplits.SplitsAgreeExactly`; consumed bytes do not count).
  Longer lines are refused by every cut (`SessionSplits.LongLineRefused`), and two sessions over one stream
  have different logs for every line in the window that holds a request (`SessionSplits.ServeLongLine`).
- A simple string survives encoding if and only if it holds no CRLF (`Replies.SimpleStringExact`). A
  replicated write arrives unchanged if and only if its TTL is absent or in the parser's range
  (`ReplicaWire.WriteReachesReplica`), and a stored value is read back unchanged if and only if its TTL
  is absent or at least 1 ms (`ReplicaWire.GetReplyRoundTrip`).
- What is saved comes back unchanged if and only if every string is shorter than 4 GiB, every TTL has at
  least 1 ms left and no tombstone carries one (`Snapshots.SaveLoadExactly`,
  `Restores.SavedCacheExactly`): an entry with less than 1 ms left is saved and then dropped by the load,
  and lengths are cut to 32 bits.
- Eviction strays from least-recently-used order: an entry may go although it was used later than one that
  stays, by any time below the 100 ms promotion interval and by no longer time
  (`CacheRuns.LruGapExactly`), except while a hit of it waits for its promotion, when there is no bound
  (`CacheRuns.WaitingGapReached`).
- Timestamps increase, over all runs with physical readings up to a given one and at most a given number of
  calls of `now()`, if and only if the reading's low 48 bits at their largest, shifted by 16, plus the calls
  do not exceed 2^64 (`HybridClock.TimestampsIncreaseExactly`; with no reading above 0, 1 plus the calls).
- Over a whole run no member's generation goes down if and only if no increment wraps, that is, no node
  outranks word about itself that already carries the last 64-bit generation, and none leaves with that
  generation (`Membership.GenerationsGrowExactly`).
- The order in which gossip is merged matters for another node if and only if two different entries share
  the newest generation, above the known one (`Membership.OrderExactly`), and for a node's own generation
  if and only if it hears both the newest generation about itself and the one just below, both above its
  own (`Membership.OwnOrderExactly`).
- After a push-pull the two sides agree about a third node if and only if they did not hold different
  entries under one generation (`Membership.ExchangeAgrees`), and about the initiator if and only if,
  besides, the responder knew nothing newer about it (`Membership.ExchangeAgreesOnInitiator`).
- A replay leaves a hint queue over its cap if and only if it could not send everything and what it puts
  back, what was queued and what was added meanwhile do not fit together
  (`Hints.ReplayOverCapExactly`); for every cap a run reaches the cap plus one whole batch of 1024
  (`Hints.CapPlusBatchReached`), and no run exceeds that (`Hints.HintsAreConserved`).
- After a rebalance pass a dropped entry is held at least as new by a current owner if and only if the key
  gained an owner or one of the others held it before (`Rebalance.PassHeldExactly`); whatever the others
  held, if and only if the key gained an owner (`Rebalance.DropHeldExactly`). A node that leaves a pair of
  owners drops what may be the only copy (`Rebalance.LeaverDropsOnlyCopy`), and the last member of a
  cluster drops everything (`Rebalance.LastOwnerDropsAll`).

Restoring a snapshot reverses the order of use (`Restores.SavedCacheComesBack`). A hint cap of 0 makes the
source pop an empty queue, so the model asks for at least 1.

## Model

| member | source | states |
|---|---|---|
| Versions.StrictTotalOrder | include/shardcache/cache_entry.hpp:40-44 | `supersedes` is irreflexive, total, asymmetric and transitive on (version, tombstone, value) |
| Versions.Merge | src/cache.cpp:126-138 | a stored register never goes down, and covers what it was sent |
| Versions.ApplyAllIsMaximum | src/cache.cpp:114-150 | a replica ends with the largest of its initial entry and everything applied |
| Versions.ReplicasConverge | src/cache.cpp:114-150 | two replicas that apply the same set of writes, in any orders with any repetition, hold the identical entry |
| Histories.LegalRead | chaos/model.go:53-65 | a read in a legal sequence returns the state left by what precedes it |
| Histories.FoundValueWasPut | chaos/model.go:53-65 | a found value was put by some operation with only reads after it |
| Quorums.ClampedQuorums | src/cluster.cpp:445-448 | clamping to fewer replicas neither breaks nor creates intersection; majority defaults and R=1, W=N intersect |
| Quorums.QuorumsMeet | src/cluster.cpp:445-448 | two sets whose sizes exceed the whole share a member |
| Quorums.PickWinner | src/cluster.cpp:664-671 | the first loop of `read` finds the largest entry among the replies |
| Quorums.CountUpToDate | src/cluster.cpp:674-683 | the second loop counts exactly the replies equal to the winner and lists exactly the others that replied |
| Replication.StampedAbove | src/cluster.cpp:538-555 | a write's version exceeds what a read quorum held when the write was invoked, also on the single-owner local path |
| Replication.WinnerHeld | src/cluster.cpp:685-694 | a linearizable read that skips the write-back already knows a write quorum holding its winner |
| Replication.InvKept | src/cluster.cpp:477-696 | every step of the protocol keeps the invariant over replicas, messages and operations |
| Replication.RunInv | src/cluster.cpp:477-696 | the invariant holds in every state of every run |
| Replication.LaterReadSees | src/cluster.cpp:646-696 | a read invoked after an operation whose tag binds has finished returns a tag at least as large |
| Replication.LaterWriteAbove | src/cluster.cpp:538-568 | in linearizable mode, and on a node that is alone, a write invoked after an operation finished has a strictly larger version |
| Replication.ReadsSeeAcknowledgedWrites | src/cluster.cpp:646-696 | in both modes, with intersecting quorums, a read started after a write was acknowledged returns its tag or a larger one |
| Linearization.SortedIsLegal | chaos/model.go:53-65 | executing the operations in tag order is legal for the register, ties between equal versions included |
| Linearization.SortedRespectsTime | src/cluster.cpp:538-696 | tag order never contradicts real time |
| Linearization.RunsAreLinearizable | src/cluster.cpp:477-696 | with intersecting quorums, in linearizable mode or on a node that is alone, the history of every run, cut anywhere, is linearizable |
| QuorumLimits.SlowClockRun | src/cluster.cpp:538-555 | in quorum mode, for every cluster of at least two nodes, a run in which two reads around a later, lower-stamped, acknowledged write both return the earlier value |
| QuorumLimits.DisjointRun | src/cluster.cpp:584-696 | for every cluster whose quorums need not meet, owners coordinating included, a run in which a read misses an acknowledged write |
| QuorumLimits.LinearizableExactly | src/cluster.cpp:477-696 | all runs are linearizable if and only if the quorums intersect and the mode is linearizable or the cluster has one node |
| QuorumLimits.FreshReadsExactly | src/cluster.cpp:445-458 | reads always see acknowledged writes if and only if the quorums intersect |
| HybridClock.StepBounds | include/shardcache/hybrid_clock.hpp:19-34 | each step uses up at most what the bound allows, and a finished `now()` strictly more than before |
| HybridClock.ExchangeMovesForward | include/shardcache/hybrid_clock.hpp:22-25 | below the bound a successful compare-exchange moves the clock strictly forward |
| HybridClock.RunInv | include/shardcache/hybrid_clock.hpp:19-34 | the clock invariant holds over every interleaving of the exchange loops and messages |
| HybridClock.TimestampsIncrease | include/shardcache/hybrid_clock.hpp:19-34 | while the bound fits a word, timestamps of a clock strictly increase and exceed everything it observed, and all are below the bound: the largest shifted reading (at least 1) plus the number of `now()` calls |
| HybridClock.WrapReached | include/shardcache/hybrid_clock.hpp:19-27 | whenever the bound does not fit, a run whose clock starts again from 0 |
| HybridClock.TimestampsIncreaseExactly | include/shardcache/hybrid_clock.hpp:19-34 | for given readings and calls, timestamps increase over all runs if and only if the bound fits a word |
| Anomalies.StaleReadRefutes | chaos/anomaly.go:10-16 | a stale read excludes every linearization when put values are unique |
| Anomalies.InversionRefutes | chaos/anomaly.go:85-88 | a new-old inversion excludes every linearization when put values are unique |
| Anomalies.SortByCall | chaos/anomaly.go:42 | sorts by call time and keeps the elements |
| Anomalies.SuffixMin | chaos/anomaly.go:43-47 | entry i is the least return time from i on |
| Anomalies.FirstAfter | chaos/anomaly.go:63 | the binary search finds the first write called after the given time |
| Anomalies.SuffixMinDecides | chaos/anomaly.go:62-64 | one look at the suffix minimum decides whether some write lies strictly between |
| Anomalies.IndexWrites | chaos/anomaly.go:22-33 | per key exactly the writes with a known outcome, and per value its last finished put |
| Anomalies.BuildIndex | chaos/anomaly.go:40-49 | every key's writes sorted, with their suffix minimum |
| Anomalies.CheckRead | chaos/anomaly.go:51-65 | a read is counted exactly when it is stale by the definition over all pairs of writes |
| Anomalies.StaleReads | chaos/anomaly.go:17-81 | the indexed count is the number of stale reads |
| Anomalies.StaleCountRefutes | chaos/anomaly.go:10-16 | a non-zero count is a proof that no linearization exists |
| Anomalies.CountRow | chaos/anomaly.go:113-118 | looking only at later reads in call order misses no inversion of the first read |
| Anomalies.Inversions | chaos/anomaly.go:89-130 | the count is the number of inverted pairs over the whole history |
| Anomalies.InversionCountRefutes | chaos/anomaly.go:85-88 | a non-zero count is a proof that no linearization exists |
| CacheRuns.StepSound | src/cache.cpp:15-263 | every operation keeps distinct keys, the exact tombstone counter and the capacity |
| CacheRuns.StepTimed | src/cache.cpp:57-91 | every operation keeps the list ordered by placement, and accesses within the promotion interval of it unless they wait for a promotion |
| CacheRuns.StructureKept | src/cache.cpp:15-263 | over every run: distinct keys, counter equal to the number of tombstones so `size()` never underflows, capacity never exceeded |
| CacheRuns.EvictionIsNearlyLru | src/cache.cpp:49-51 | over every run: the entry to be evicted was last accessed before any survivor's last access plus 100 ms, unless that access is a hit still waiting to promote it |
| CacheRuns.GapReached | src/cache.cpp:75-79 | for every gap below 100 ms a run evicts an entry used that much later than one that stays, with no hit waiting |
| CacheRuns.WaitingGapReached | src/cache.cpp:82-90 | while a hit waits for its promotion, for every gap whatever a run does |
| CacheRuns.LruGapExactly | src/cache.cpp:49-91 | eviction strays from strict LRU by exactly the gaps below the promotion interval |
| CacheRuns.ApplyIsMerge | src/cache.cpp:114-150 | on an unexpired entry `apply` is the register merge of the replication model |
| CacheRuns.StepMerges | src/cache.cpp:15-263 | an operation that does not overwrite, remove, expire or evict a key's entry leaves its version, value and tombstone alone, or merges what it applies |
| CacheRuns.CachesConverge | src/cache.cpp:114-150 | two caches sent the same set of writes to a key, in any orders, with any repetition and among any such operations, end with the same entry |
| Caches.Cache.constructor | src/cache.cpp:5-6 | an empty, consistent cache |
| Caches.Cache.EraseNode | src/cache.cpp:15-19 | list and index lose exactly that node; the counter follows |
| Caches.Cache.EvictLru | src/cache.cpp:21-25 | the last node goes, and nothing on an empty list |
| Caches.Cache.Set | src/cache.cpp:27-55 | the whole new list and counter, for a present and an absent key |
| Caches.Cache.GetShared | src/cache.cpp:61-80 | a hit exactly for a live entry, its value, and whether it is to be promoted |
| Caches.Cache.Promote | src/cache.cpp:82-90 | whatever entry the key has by then moves to the front and is stamped |
| Caches.Cache.Get | src/cache.cpp:57-91 | both sections together: value, new order, counter |
| Caches.Cache.Remove | src/cache.cpp:93-105 | the key is gone, the rest keeps its order; true exactly for a live entry |
| Caches.Cache.StoreEntry | src/cache.cpp:126-149 | an entry stored at the front, evicting only for a new key in a full cache |
| Caches.Cache.Apply | src/cache.cpp:114-150 | accepts exactly absent, expired or superseded entries, and reports liveness before |
| Caches.Cache.GetVersioned | src/cache.cpp:152-167 | tombstones are reported, expired entries are not, TTL is what remains |
| Caches.Cache.Snapshot | src/cache.cpp:169-182 | every unexpired entry, in list order |
| Caches.Cache.Size | src/cache.cpp:184-187 | the number of entries that are not tombstones, never negative |
| Caches.Cache.Clear | src/cache.cpp:194-199 | empty list, index and counter |
| Caches.Cache.Expire | src/cache.cpp:201-218 | a live entry gets its deadline in place, an expired one is erased, a tombstone is left |
| Caches.Cache.PurgeExpired | src/cache.cpp:250-263 | erasing while iterating leaves exactly the unexpired entries, in order |
| Snapshots.ComputeChecksum | src/snapshot.cpp:63-70 | the loop computes the specified checksum |
| Snapshots.MixInjective | src/snapshot.cpp:66-67 | each checksum step is injective modulo 2^64 in the state and in the byte |
| Snapshots.ChecksumDetects | src/snapshot.cpp:63-70 | changing one byte changes the checksum |
| Snapshots.FileRoundTrip | src/snapshot.cpp:78-178 | decoding a saved file gives back exactly the saved entries |
| Snapshots.CorruptionRejected | src/snapshot.cpp:126-164 | changing any one byte of an accepted file makes it rejected |
| Snapshots.LoadedIsAged | src/snapshot.cpp:78-178 | saving at one time and loading at another applies exactly the entries whose TTL has not run out, in order, with what is left of it |
| Snapshots.SaveLoadExactly | src/snapshot.cpp:78-178 | at one instant it applies exactly what was saved if and only if strings are below 4 GiB, TTLs at least 1 ms and tombstones bare |
| Snapshots.Save | src/snapshot.cpp:78-97 | the buffer, with its patched count and checksum, is the file of the entries, lengths cut to 32 bits |
| Snapshots.Load | src/snapshot.cpp:126-178 | succeeds exactly on files that decode; a rejected file applies nothing |
| Restores.RestoreFillsCache | src/snapshot.cpp:166-177 | an empty cache with room ends with exactly the restored entries, last one first |
| Restores.SavedCacheComesBack | src/snapshot.cpp:78-178 | cache to file to cache: the entries still alive at the load, with what is left of their TTL, in reverse order of use |
| Restores.SavedCacheExactly | src/snapshot.cpp:78-178 | at one instant the whole cache comes back if and only if its strings are below 4 GiB and every TTL has 1 ms left |
| Restores.LoadInto | src/snapshot.cpp:120-179 | a cache takes all of a valid file and is untouched by an invalid one |
| Rings.ReplayExact | src/consistent_hash.cpp:28-47 | without collisions, after any adds and removes the ring holds exactly its members' positions |
| Rings.RingDependsOnMembersOnly | src/consistent_hash.cpp:28-47 | without collisions two histories with the same members give the same ring |
| Rings.MembersOnlyExactly | src/consistent_hash.cpp:28-47 | any two histories with the same members give the same ring if and only if no two nodes share a position |
| Rings.RemoveUndoesAdd | src/consistent_hash.cpp:28-47 | removing a node just added restores the ring if and only if none of its positions was taken |
| Rings.AddUndoesRemove | src/consistent_hash.cpp:28-47 | adding back a removed node restores the ring if and only if all its positions pointed at it |
| Rings.AddOrderExactly | src/consistent_hash.cpp:28-35 | two nodes can be added in either order if and only if they share no position |
| RingWalks.JoinInserts | src/consistent_hash.cpp:62-86 | a join turns a key's full preference order into the old one with the new node inserted once |
| RingWalks.JoinKeepsOrder | src/consistent_hash.cpp:62-86 | the N-node list becomes the old list with the new node inserted, cut to N |
| RingWalks.LeaveKeepsOrder | src/consistent_hash.cpp:62-86 | removal is the inverse: the old list is the new one with the leaver inserted, cut to N |
| ConsistentHash.ConsistentHashRing.Add | src/consistent_hash.cpp:28-35 | the new ring, as a function of the old one |
| ConsistentHash.ConsistentHashRing.Remove | src/consistent_hash.cpp:37-47 | the new ring, as a function of the old one |
| ConsistentHash.ConsistentHashRing.Locate | src/consistent_hash.cpp:49-60 | the head of the key's preference list |
| ConsistentHash.ConsistentHashRing.LocateReplicas | src/consistent_hash.cpp:62-86 | the first `count` distinct owners clockwise from the key |
| RoutingTables.CollectReplicas | src/routing_table.cpp:22-29 | the inner loop collects the first n distinct indices around the ring |
| RoutingTables.IndexNodes | src/routing_table.cpp:9-16 | nodes in order of first appearance, and each point's owner by its number cut to 16 bits |
| RoutingTables.CollectedIsWalk | src/routing_table.cpp:22-29 | collecting indices from a point is walking the ring from it |
| RoutingTables.RoutingTable.constructor | src/routing_table.cpp:8-34 | every row is collected from the stored numbers, with its local-member flag, for any number of nodes |
| RoutingTables.WrappedRowWrong | src/routing_table.cpp:12 | with more than 65536 nodes and a positive factor some row is not the walk from its point |
| RoutingTables.RoutingTable.CorrectExactly | src/routing_table.cpp:8-34 | every row is the walk from its point, and its flag right, if and only if at most 65536 nodes own a point or the factor is 0 |
| RoutingTables.RoutingTable.PointFor | src/routing_table.cpp:36-39 | the row whose walk is the key's preference list |
| RoutingTables.RoutingTable.RowNodes | src/routing_table.cpp:41-46 | the nodes a row names, in order |
| RoutingTables.RoutingTable.PreferenceListFor | src/routing_table.cpp:48-51 | under that condition the precomputed list equals the ring walk for every key |
| RoutingTables.RoutingTable.LocalIsReplica | src/routing_table.cpp:30-32 | under that condition true exactly when this node is in the key's list |
| RoutingTables.PreferenceListShape | src/routing_table.cpp:18-29 | lists have no duplicates and length min(factor, nodes owning a point) |
| RoutingTables.ReachableRingIsTabulable | src/routing_table.cpp:9-16 | every ring reachable by adds and removes has one node per id, so it can be tabulated |
| Decimals.DecimalRoundTrip | protocol/resp.cpp:15-19 | reading back a printed integer gives the integer |
| Resp.SplitTokens | protocol/resp.cpp:34-41 | the scanning loops find the maximal runs of non-blank characters |
| Resp.ParseRequestLoop | protocol/resp.cpp:48-92 | the parser with its loops equals the recursive specification, with every error case |
| Resp.EncodeCommand | protocol/resp.hpp:82-90 | the encoder's loop produces the specified bytes |
| Resp.ParseRequestStable | protocol/resp.cpp:48-92 | a decided request is unchanged by more bytes |
| Resp.RequestRoundTrip | protocol/resp.cpp:48-92 | an encoded command followed by any bytes parses to exactly its arguments and length |
| Resp.RequestPrefixIncomplete | protocol/resp.cpp:48-92 | every proper prefix of an encoded command is incomplete |
| Replies.ParseReplyLoop | protocol/resp.cpp:94-162 | the recursive parser with its loop equals the specification |
| Replies.ReplyStable | protocol/resp.cpp:94-162 | a decided reply is unchanged by more bytes |
| Replies.ReplyRoundTrip | protocol/resp.hpp:46-80 | replies round-trip, nested arrays included |
| Replies.ReplyPrefixIncomplete | protocol/resp.cpp:94-162 | every proper prefix of an encoded reply is incomplete |
| Replies.SimpleStringExact | protocol/resp.hpp:46-50 | a simple string comes back if and only if it holds no CRLF |
| Commands.ParseSetOptions | protocol/parser.cpp:41-56 | the option loop equals its specification, multiplication wrap included |
| Sessions.ParseDecided | network/session.cpp:46-57 | unless it starts with an inline line whose newline lies beyond the limit, what a prefix decides the whole stream decides the same way |
| Sessions.RequestSplitExactly | protocol/resp.cpp:21-33 | every deciding prefix of a stream decides its first request alike if and only if the stream does not start with such a line |
| Sessions.ArrivedIsSequential | network/session.cpp:39-79 | parsing chunk by chunk executes and answers what parsing all bytes at once does, if no request starts with such a line |
| Sessions.ClientSession.constructor | network/session.cpp:20-22 | a session starts with one read outstanding |
| Sessions.ClientSession.ProcessInput | network/session.cpp:39-79 | the parsing loop keeps the account of the whole stream, under back-pressure and hand-over |
| Sessions.ClientSession.ProcessOne | network/session.cpp:46-75 | one request consumed, skipped, refused or handed over |
| Sessions.ClientSession.Flush | network/session.cpp:94-108 | exactly one operation is started, or the session closes |
| Sessions.ClientSession.OnRead | network/session.cpp:28-35 | the invariant survives a read of any chunk or an error |
| Sessions.ClientSession.OnWrite | network/session.cpp:111-123 | the invariant survives the end of a write |
| Sessions.ClientSession.OnRpcDone | network/session.cpp:81-92 | the invariant survives the executor's reply |
| Sessions.ClientSession.QuiescentIsArrived | network/session.cpp:24-125 | whenever the session waits or has finished, executed requests and written replies equal sequential processing of the chunks as they came, for every stream |
| Sessions.ClientSession.QuiescentIsSequential | network/session.cpp:24-125 | and of the whole stream at once, if no request starts with an inline line whose newline lies beyond the limit |
| Sessions.ClientSession.AlwaysPrefix | network/session.cpp:24-125 | at any time they are prefixes of it |
| Sessions.ClientSession.Settle | network/session.cpp:24-125 | with every operation succeeding, a session comes to wait for input or to close |
| Sessions.Serve | network/session.cpp:24-125 | a session sent any chunks, with every operation succeeding, executes, answers and closes exactly as processing the chunks one after another does |
| SessionSplits.ResumeIsStrict | network/session.cpp:24-79 | unless a cut is disputed, any run of reads of at most 16 KiB does what processing with the line limit always enforced does |
| SessionSplits.LongLineRefused | protocol/resp.cpp:21-29 | a line whose newline lies 80 KiB or more away is refused in whatever reads it arrives, and nothing is executed |
| SessionSplits.SplitsAgreeExactly | network/session.cpp:24-79 | all ways to read a stream execute, answer and close alike if and only if no request reached starts with a line whose newline lies strictly between 64 KiB and 80 KiB, unless it is blank and the rest is refused anyway |
| SessionSplits.QuiescentIsStrict | network/session.cpp:24-125 | under that condition a session at rest has done what strict processing of its whole stream does |
| SessionSplits.LongLineTwoRuns | protocol/resp.cpp:21-33 | every line in the window, in five reads with its newline or with the newline after them: processed, or refused |
| SessionSplits.ServeLongLine | protocol/resp.cpp:21-33 | two sessions over one stream whose logs differ, for every line in the window that holds a request |
| PeerChannels.NextReply | network/peer_channel.cpp:100-113 | the next reply on an in-order stream is the one to the oldest waiting request |
| PeerChannels.RunInv | network/peer_channel.cpp:27-150 | numbering, streams, deadlines and outstanding handlers stay consistent over every order of events |
| PeerChannels.EveryCallIsAnswered | network/peer_channel.cpp:27-150 | each callback runs exactly once, in call order, with its own reply if the peer answers in order, and within a quarter timeout of its deadline if timers are punctual |
| PeerChannels.PeerChannel.DoEnqueue | network/peer_channel.cpp:27-40 | the request is queued with its deadline, the timer armed, and the connection or the write started: the specified step |
| PeerChannels.PeerChannel.DoConnect | network/peer_channel.cpp:42-46 | a new generation and one outstanding resolve of it: the specified step |
| PeerChannels.PeerChannel.OnResolved | network/peer_channel.cpp:47-54 | the in-place handler is the specified step, ignored for an old generation |
| PeerChannels.PeerChannel.OnConnected | network/peer_channel.cpp:55-66 | the in-place handler is the specified step, ignored for an old generation |
| PeerChannels.PeerChannel.DoFlush | network/peer_channel.cpp:70-76 | one write of everything queued, unless one is outstanding: the specified step |
| PeerChannels.PeerChannel.OnWritten | network/peer_channel.cpp:77-86 | the in-place handler is the specified step, ignored for an old generation |
| PeerChannels.PeerChannel.OnRead | network/peer_channel.cpp:89-117 | the handler with its parsing loop is the specified step, ignored for an old generation |
| PeerChannels.PeerChannel.DoDrain | network/peer_channel.cpp:99-115 | the loop hands each complete reply to the oldest pending callback, and ends by reading on or by failing the rest |
| PeerChannels.PeerChannel.TakeReply | network/peer_channel.cpp:101-112 | one round of it: the callback run, the pending call gone, the offset moved, or the reason to stop |
| PeerChannels.PeerChannel.DoTimer | network/peer_channel.cpp:119-129 | the in-place handler is the specified step |
| PeerChannels.PeerChannel.DoClose | network/peer_channel.cpp:21-25 | closing the channel fails every pending call: the specified step |
| PeerChannels.PeerChannel.DoFailAll | network/peer_channel.cpp:131-150 | the connection is reset and every pending call fails once |
| PeerChannels.PeerChannel.FailEach | network/peer_channel.cpp:147-149 | the callback loop runs each failed call's callback once, in order, with the given status |
| ReplicaWire.WriteReachesReplica | network/client.cpp:234-244 | encoded, framed, parsed and dispatched, a write reaches the replica unchanged if and only if its TTL is absent or in range |
| ReplicaWire.QueryReachesReplica | network/client.cpp:246-248 | a version query, encoded, framed and parsed, reaches the replica with its key |
| ReplicaWire.GetReplyRoundTrip | network/client.cpp:257-274 | a REPL_GET reply decodes to exactly the stored value, for every 64-bit version, if and only if its TTL is absent or at least 1 ms |
| ReplicaWire.AckRoundTrip | network/client.cpp:250-255 | a write acknowledgement carries the liveness flag |
| Membership.RingFollowsMembers | src/cluster.cpp:150-216 | over every run of merges and leaves an id is in node map and ring exactly when its entry is Alive, and the published routing is of the current ring |
| Membership.GenerationsGrow | src/cluster.cpp:152-161 | merging an entry lowers a generation if and only if outranking wraps |
| Membership.LeaveGrows | src/cluster.cpp:299-301 | leaving raises the own generation unless it was the last |
| Membership.GenerationsGrowExactly | src/cluster.cpp:150-216 | over every run, entry by entry, no generation goes down if and only if no increment wraps |
| Membership.GenerationsNeverDecrease | src/cluster.cpp:150-216 | over every run in which no increment wraps, no generation decreases and no member is forgotten |
| Membership.ClearRunNeverWraps | src/cluster.cpp:150-216 | so it is when the generations heard stay far enough from the last one |
| Membership.OnlyOwnerChangesStatus | src/cluster.cpp:156-161 | gossip never changes a node's own status or address; leaving changes no other entry |
| Membership.OrderExactly | src/cluster.cpp:150-161 | for every other id, the outcome of a merge does not depend on order or repetition if and only if no two different entries share the newest generation above the known one |
| Membership.MergeOrderIrrelevant | src/cluster.cpp:200-216 | in particular if equal generations agree, and then whether the id is in the ring does not depend on it either |
| Membership.OwnOrderExactly | src/cluster.cpp:156-161 | for the own id the resulting generation is the same in every order if and only if the generation just below the newest heard one is not heard as well, above the own one |
| Membership.OwnNoNews | src/cluster.cpp:156-161 | with nothing newer heard about itself a node keeps its generation in every order |
| Membership.ExchangeAgrees | src/cluster.cpp:230-259 | after one push-pull both views agree on a third node if and only if they did not hold different entries under one generation |
| Membership.ExchangeAgreesOnResponder | src/cluster.cpp:230-259 | and on the responder if and only if, besides, the initiator did not hold the last generation about it as news |
| Membership.ExchangeAgreesOnInitiator | src/cluster.cpp:230-259 | and on the initiator if and only if, besides, the responder knew nothing newer about it |
| Membership.OnlyLeaversLeaveTheRing | src/cluster.cpp:150-216 | over every run of the cluster, with messages delayed, lost and repeated, a node that has not left stays in the ring of everyone who knows it |
| Membership.MembershipTable.ApplyMemberLocked | src/cluster.cpp:150-180 | the new tables; true exactly when the ring's nodes change |
| Membership.MembershipTable.Merge | src/cluster.cpp:200-216 | the merge loop, republishing if the ring changed, answering with every entry |
| Membership.MembershipTable.Depart | src/cluster.cpp:295-308 | the own entry is Left with a new generation, and node map, ring and routing lose it |
| Hints.StepConserved | src/cluster.cpp:767-870 | every step moves hints between places without losing or doubling one |
| Hints.HintsAreConserved | src/cluster.cpp:767-870 | over every interleaving of adds with one replayer each hint is in exactly one place, the queue is in insertion order and holds at most cap plus 1024 |
| Hints.OverCapExactly | src/cluster.cpp:767-864 | one step takes a queue over its cap if and only if it puts back a rest that does not fit |
| Hints.ReplayOverCapExactly | src/cluster.cpp:838-864 | over every replay with adds between its sends: what is put back are the last hints of the batch, and the queue ends over its cap if and only if there are any and they do not fit with what was queued and added |
| Hints.QuietReplayOverCap | src/cluster.cpp:838-864 | with no adds, from which hints the peer accepts |
| Hints.CapPlusBatchReached | src/cluster.cpp:767-864 | for every cap a run reaches a queue of exactly cap plus 1024 |
| Hints.DeliveredInOrder | src/cluster.cpp:838-854 | hints are delivered in insertion order, before anything still pending, unchanged but for the remaining TTL |
| Hints.HintQueue.AddHint | src/cluster.cpp:767-778 | appended, dropping the oldest queued hint at the cap |
| Hints.HintQueue.DiscardAll | src/cluster.cpp:827-831 | a departed node's queue is cleared |
| Hints.HintQueue.TakeBatch | src/cluster.cpp:832-835 | the oldest 1024 hints move to the batch |
| Hints.HintQueue.Attempt | src/cluster.cpp:841-853 | the oldest is skipped when late, else sent with its remaining TTL |
| Hints.HintQueue.Replay | src/cluster.cpp:838-865 | one pass, stopping at the first failure, with the rest put back; counts what was delivered |
| Hints.HintQueue.PutBackRest | src/cluster.cpp:856-864 | the rest goes back and the replay ends |
| Hints.HintQueue.ReturnBatch | src/cluster.cpp:860-862 | pushing to the front from the back restores insertion order |
| Rebalance.SomeOwnerIsNew | src/cluster.cpp:342-362 | pigeonhole: a list at least as long that omits this former owner names a new owner |
| Rebalance.DropHeld | src/cluster.cpp:342-362 | after a drop a current owner holds the entry if and only if the key gained an owner or another owner held it |
| Rebalance.DropHeldExactly | src/cluster.cpp:342-362 | whatever the owners held before, if and only if the key gained an owner |
| Rebalance.LeaverDropsOnlyCopy | src/cluster.cpp:348-362 | a node leaving a pair of owners drops an entry the other never had |
| Rebalance.ReplacedOwner | src/cluster.cpp:342-362 | a former owner replaced in a list that gets no shorter means the key gained one |
| Rebalance.LastOwnerDropsAll | src/cluster.cpp:340-362 | with no owners left the key is dropped and sent to no one |
| Rebalance.PassPlaces | src/cluster.cpp:332-364 | for any pattern of send failures: untouched keys stay, a key goes only if every new owner acknowledged, every failed send left a hint, and a dropped key that gained an owner is held at least as new by a new one |
| Rebalance.PassHeldExactly | src/cluster.cpp:332-364 | after the whole pass a dropped entry is held by a current owner if and only if the key gained one or another held it before |
| Rebalance.JoinHandsToJoiner | src/cluster.cpp:342-362 | after a join a copy is dropped only once the joining node acknowledged it |
| Rebalance.Rebalancer.PushToOwners | src/cluster.cpp:340-358 | the owner loop sends to exactly the new owners, leaves a hint for each that did not acknowledge, and says whether this node still owns the key |
| Rebalance.Rebalancer.RebalanceKey | src/cluster.cpp:334-362 | one key: the sends, the hints, and the drop exactly when this node is no owner and all acknowledged |
| Rebalance.Rebalancer.RebalanceNow | src/cluster.cpp:319-365 | the whole pass over a snapshot, or nothing when the data is already placed for the current table |

## Left out

- Sockets, strands, resolvers, thread pools, the blocking client and its pool: only their effect as events is modelled.
- `expire_key` and TTL changes in the linearizability theorem: a read followed by a write, not atomic; expiry and eviction break the monotonicity of replicas it rests on.
- `remove_node`: it bumps another node's generation and does not republish the routing, so the membership invariants are stated without it.
- A newer Alive entry for a node already in the ring does not update its address in the node map; the model does the same and claims nothing about addresses.
- Hash quality and load balance: the hash is a parameter.
- Snapshots.Save: asks for versions and expiries that fit their 64-bit words, as the source's types do; an expiry past them would be signed overflow.
- CacheRuns.CachesConverge: speaks of the version, value and tombstone of an entry; its deadline depends on when the entry arrived.
- Rebalance.PassPlaces: assumes the key is not written locally between snapshot and removal, as the source does.
- Hints are modelled for one destination; destinations are independent, and health and membership of the destination are inputs.
- File opening, renaming and temporary files of snapshots: the byte buffer only.
- Most commands of the parser and handler: only the replication commands and the shared option loop are modelled; other commands are handler parameters of the session.
- The gossip wire encoding, metrics, logging, configuration, health checker, single-flight loading, the unused LRU and TTL trackers, and sharding of the cache: not part of this model.
- Chaos process control, proxies and the Go client.
