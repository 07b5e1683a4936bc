# nanocached: a verified model

This project models the three components of nanocached that hold its hard reasoning, and the small
client protocol that ties them together, and proves what each is for.

* **The store** (`Lru`, `StoreSpec`, `Namespace`, `Cache`). The node keeps one memory-bounded LRU cache as many
  per-namespace lists, a lazily corrected heap of their oldest stamps, redundant byte counters, migration marks, kept
  digests, tombstones with a lazily stale queue, and a budgeted sweep over a stale candidate queue. `Cache` is that
  representation as a class; `StoreSpec` is one list. `Cache.Run` shows that they cannot be told apart. What the list
  itself guarantees is proved in `ClientLaws` and `UpkeepLaws`, operation by operation and by the entries alone, and
  in `Eviction`, `MemoryBound`, `Tombstones`, `NoResurrection`, `Reachable`, `Sweeping`, `SweepCounts`, `Batches` and
  `Touches`.
* **Rendezvous hashing** (`Words`, `Ranking`, `HashVectors`, `HashRing`, `OwnerLaws`, `Owners`, `Membership`). The
  node's partial selection, its early-exit count and the Go client's bounded insertion agree on every input, joins and
  leaves are local, and the rule for dead copies keeps a copy exactly when no other holder is left.
* **The wire** (`Text`, `Decimal`, `Wire`, `RequestReader`, `Requests`, `Frames`, `GoFrames`, `ClusterFrames`,
  `HeaderSizes`, `Canonical`, `Responses`, `ResponseReader`, `ReplyRoundTrip`). `Wire.Parse` says what a buffer's front
  means; the resumable parser, fed in any chunks, agrees with it; the Go client's frames and the node's replies are
  read back by the other side.
* **The pipelined connection** (`Pipelining`, `Serving`, `Refusals`, `Connection`). The Go connection as a state machine
  over its critical sections, over every interleaving; its read loop and request attempt as they are written, with the
  other goroutines' steps in between; and, joining the wire to it, that each request gets the node's answer to it.
* **End to end** (`EndToEnd`). A client's call framed, parsed, applied, encoded, read back and interpreted: what the
  client is told is what the node's entries say.

Instants are natural numbers passed in as `now`. A 64-bit word is a natural below 2^64 with wrapping multiplication
written out. A byte string's identity in memory is an address that, with its length, fixes its content. SHA-256 is the
parameter `Config.digest`. The order in which a sweep lists candidates is a ghost choice, and every statement about a
run holds for any such choice. The two library calls of the ring lookup, selection and sort, are methods known to
their callers only by what the library promises.

Where the code says less than a comment beside it, the model follows the code and states the difference:
`SweepCounts.FewRemovedIsNotDrained` and, exactly, `SweepCounts.CountShowsDrainedIff` (what a short sweep means),
`Tombstones.RepeatsAreUnbounded` with `Tombstones.QueueCapIff` and `NoResurrection.RepeatAtOneInstantLosesTombstone`
with `NoResurrection.LostIffFirstAtCap` (repeated deletes at one instant), `Decimal.CounterTextIsCanonical` ("-0"),
and `MemoryBound.MarkPassesBound` with `MemoryBound.ExcessOverRuns` (marks, kept digests and tombstones can pass the
memory bound until the next write, by no more than their charges). `Ranking.DefaultNamespaceSharesInputs` shows where
the hash input stops being injective.

`dafny verify dfyconfig.toml` checks the whole project.

## Model

| member | source | states |
|---|---|---|
| `Decimal.ReadLength` | src/command.rs:2175-2190 | The digit-by-digit fold accepts exactly the non-empty digit strings whose value fits a `usize`, and returns that value; the early stop at the first overflow rejects nothing that would have fitted. |
| `Decimal.LengthRoundTrip` | src/command.rs:2175-2190 | Every number up to the largest `usize`, printed canonically, reads back as itself. |
| `Decimal.CounterRoundTrip` | src/cache.rs:506-534 | Printing then parsing a counter is the identity on all of i64, the minimum included. |
| `Decimal.CounterTextIsCanonical` | src/cache.rs:506-534 | Everything accepted is in range and is the text the node itself would write, with the single exception "-0": accepted text equals its own printing if and only if it is not "-0". |
| `CacheModel.Cache.constructor` | src/cache.rs:549-581 | An empty cache satisfies the representation invariant and stands for the empty single list. |
| `CacheModel.Cache.Run` | src/cache.rs:583-2217 | For every run of operations at any instants: the answers and the final state are those of one global LRU list; `used_bytes`, `entry_count` and `marked` equal the sums and counts over that list; and the heap never holds more than 2(p + 1) plus the slack plus one items, where p is the most namespaces live between two calls, so it stays in proportion to the namespaces. |
| `CacheModel.Cache.Execute` | src/cache.rs:583-2217 | Any single operation answers and leaves behind what the single-list specification does, keeping the representation invariant. |
| `CacheModel.Cache.ExecuteOne` | src/cache.rs:583-1164 | The single-key client operations and clears do what the single-list specification does. |
| `CacheModel.Cache.ExecuteBatch` | src/cache.rs:770-1519 | Batches and handoffs do what the single-list specification does. |
| `CacheModel.Cache.ExecuteUpkeep` | src/cache.rs:1036-2217 | Reclaims, marks and sweeps do what the single-list specification does. |
| `CacheModel.Cache.PickVictim` | src/cache.rs:1550-1594 | Popping and correcting stale heap items terminates, never meets an empty heap while a namespace is live, and ends at exactly the namespace a full scan would pick, at that namespace's real oldest stamp. |
| `CacheModel.Cache.EvictOne` | src/cache.rs:1550-1594 | Removes exactly the front of the global list, whose namespace is the one the scan oracle names; the heap does not grow. |
| `CacheModel.Cache.EvictOneFrom` | src/cache.rs:1617-1643 | Removes one namespace's oldest entry, with its mark and digest charges, and drops the namespace exactly when that was its last entry. |
| `CacheModel.Cache.VictimIsOldest` | src/cache.rs:1600-1611 | The entry at the front of the scan oracle's namespace is the front of the global list. |
| `CacheModel.Cache.RebuildTails` | src/cache.rs:1350-1362 | After a rebuild the heap holds one item per live namespace, each covering its namespace's oldest entry. |
| `CacheModel.Cache.EnsureNamespace` | src/cache.rs:1315-1346 | Resolves or creates the namespace, charging its name once, keeping the heap covering every live namespace and within its bound. |
| `CacheModel.Cache.RemovalKeepsTable` | src/cache.rs:1714-1729 | Taking out an entry keeps the slot table: a namespace with entries left mirrors the shorter list, and one that lost its last entry has a byte share of exactly zero, no mark and no digest, so dropping it and crediting its name keeps the table and the name charges exact. |
| `CacheModel.Cache.InsertInto` | src/cache.rs:1396-1453 | A write equals: move the key to the newest place with its new value and no mark or digest, then evict within the namespace budget, then within the memory bound. |
| `CacheModel.Cache.Insert` | src/cache.rs:1379-1389 | The whole write path equals the specification's put. |
| `CacheModel.Cache.EnforceNamespaceBudget` | src/cache.rs:1527-1540 | The loop evicts what the specification's own-namespace eviction does and never drops the namespace being written. |
| `CacheModel.Cache.EnforceMemoryBound` | src/cache.rs:1446-1452 | The loop evicts what the specification's global eviction does and stops with at least one entry left. |
| `CacheModel.Cache.RemoveEntryIn` | src/cache.rs:1714-1729 | Removes one entry with every charge it carried, exactly once, dropping the namespace with its last entry. |
| `CacheModel.Cache.ReleaseMark` | src/cache.rs:1735-1750 | Takes a mark's charge off the share and the two totals exactly when there is a mark. |
| `CacheModel.Cache.ReleaseDigest` | src/cache.rs:1755-1764 | Takes a kept digest's charge off exactly when one is kept. |
| `CacheModel.Cache.GetAt` | src/cache.rs:1645-1649 | A read returns the live value and promotes it, or expires the entry lazily, as the single list does (`ClientLaws.GetAnswers` and `ClientLaws.GetMoves` say what that is). |
| `CacheModel.Cache.GetIn` | src/cache.rs:1654-1679 | The same with the namespace already resolved, including the case where lazy expiry drops it (`ClientLaws.GetAnswers`, `ClientLaws.GetMoves`). |
| `CacheModel.Cache.DeleteAt` | src/cache.rs:1681-1696 | A delete removes the entry and answers whether a live one was there. |
| `CacheModel.Cache.TouchAt` | src/cache.rs:676-685 | A touch replaces the expiry only, promoting only for get-and-touch, and never creates a key. |
| `CacheModel.Cache.TouchIn` | src/cache.rs:689-751 | The same with the namespace already resolved. |
| `CacheModel.Cache.IncrAt` | src/cache.rs:624-652 | An increment answers and leaves what the specification does: missing, not numeric, overflow and success. |
| `CacheModel.Cache.SetAt` | src/cache.rs:588-597 | A set with a TTL beyond the clock's horizon never expires; otherwise it is the specification's put (`ClientLaws.WriteLives`: until exactly the TTL has passed). |
| `CacheModel.Cache.CasSetAt` | src/cache.rs:1077-1096 | Stores only if the condition holds, after lazy expiry, as the specification does (`ClientLaws.CasSetActs`). |
| `CacheModel.Cache.CasDeleteAt` | src/cache.rs:1108-1115 | Deletes only if the digest matches, as the specification does (`ClientLaws.CasDeleteActs`). |
| `CacheModel.Cache.ConditionHoldsAt` | src/cache.rs:1121-1148 | Every condition is decided as if the stored value were hashed afresh, whatever digests have been kept (`ClientLaws.CasSetActs` says when that is). |
| `CacheModel.Cache.DigestOf` | src/cache.rs:1769-1788 | The digest returned is that of the value stored now, kept or recomputed, and keeping it charges exactly the digest's bytes. |
| `CacheModel.Cache.MarkMigrated` | src/cache.rs:1922-1953 | Marks a present entry once, charging it once; marking again or marking nothing changes nothing. |
| `CacheModel.Cache.ClearMigratedMark` | src/cache.rs:1798-1805 | Removes one mark and its charge, if there is one. |
| `CacheModel.Cache.UnmarkMigratedMany` | src/cache.rs:1973-1979 | Removes the marks of all the listed keys, and answers how many there were. |
| `CacheModel.Cache.ClearNamespace` | src/cache.rs:2056-2077 | Drops exactly the namespace's entries and all their charges, and answers how many. |
| `CacheModel.Cache.ClearEverything` | src/cache.rs:2082-2098 | Empties the store and its tombstones, with every counter at zero, and leaves the sweep queue alone. |
| `CacheModel.Cache.Tombstone` | src/cache.rs:1189-1214 | Records a delete as the specification does: prune, make room at the cap, stamp, compact an overlong queue; each charge is added and credited once. |
| `CacheModel.Cache.PruneTombstones` | src/cache.rs:1226-1237 | The pop loop leaves what the specification's prune does. |
| `CacheModel.Cache.ForgetOldestTombstone` | src/cache.rs:1240-1246 | The pop loop forgets the first stamp that is still live, skipping stale ones. |
| `CacheModel.Cache.ForgetTombstone` | src/cache.rs:1269-1279 | Forgets a key's tombstone and credits its charge. |
| `CacheModel.Cache.HandoffDeleteAt` | src/cache.rs:1176-1186 | A handoff delete removes the entry and leaves a tombstone. |
| `CacheModel.Cache.HandoffSetAt` | src/cache.rs:901-946 | An unconditional handoff stores, or with a zero TTL deletes and leaves a tombstone; it reports an unchanged value. |
| `CacheModel.Cache.HandoffSetIfAbsentAt` | src/cache.rs:983-1014 | A put-if-absent handoff is refused by a tombstone or a live unmarked entry and otherwise stores. |
| `CacheModel.Cache.ReclaimUnownedAt` | src/cache.rs:1045-1075 | Removes the listed keys this node does not own, or nothing while paused after a recent handoff. |
| `CacheModel.Cache.SweepAt` | src/cache.rs:2142-2229 | A sweep prunes tombstones, refills an empty queue with exactly the expired and (if asked) marked keys, each once, and judges up to the budget. |
| `CacheModel.Cache.SweepQueue` | src/cache.rs:2177-2217 | The budgeted pop loop does what the specification's judging of the queue's front does, and counts what it removed. |
| `CacheModel.Cache.SetManyAt` | src/cache.rs:1461-1482 | A batched set with the namespace resolved once equals the sequence of single sets. |
| `CacheModel.Cache.GetManyAt` | src/cache.rs:1490-1519 | A batched get with the namespace resolved once equals the specification's, lazy expiry that drops the namespace included. |
| `CacheModel.Cache.TouchManyAt` | src/cache.rs:770-831 | A batched touch with the namespace resolved once equals the specification's. |
| `Eviction.EvictOwnShortest` | src/cache.rs:1527-1540 | A namespace over its budget loses its oldest items only, and the fewest that fit; other namespaces lose nothing. |
| `Eviction.EvictOldestShortest` | src/cache.rs:1550-1594 | The memory bound takes a prefix of the global order: the shortest after which the store fits or one item is left. |
| `Eviction.WriteEvictsShortestPrefixes` | src/cache.rs:1396-1453 | Each write first evicts the shortest over-budget prefix of its own namespace, then the shortest prefix of the global order that fits the bound; the store then fits unless one item is left. |
| `Eviction.WriteIsKept` | src/cache.rs:1396-1453 | The entry just written is never evicted: it is stored with its value, newest, unmarked. |
| `Eviction.OldestGoFirst` | src/cache.rs:1396-1453 | Nothing evicted for memory is newer than anything kept. |
| `Eviction.PutSubset` | src/cache.rs:1396-1453 | A write leaves only what was there and what it wrote. |
| `ClientLaws.GetAnswers` | src/cache.rs:1654-1679 | A get answers v if and only if an entry under that key has value v and no expiry or one later than now; it answers nothing if and only if there is no such entry. |
| `ClientLaws.GetMoves` | src/cache.rs:1654-1679 | On a hit the list ends with that entry, restamped, and all others keep their order and content; an expired entry alone goes; on a miss the list is unchanged. |
| `ClientLaws.ReadOutlivesOlder` | src/cache.rs:1396-1453 | The key just read outlives every older one: a write of another key that evicts it leaves nothing older that could have gone in its place. |
| `ClientLaws.SetThenGet` | src/cache.rs:583-601 | After any run, a value set at t with TTL d is answered by a get at now exactly while now < t + d, and always if it has no TTL or one past the horizon. |
| `ClientLaws.WriteLives` | src/cache.rs:1379-1453 | Every write path (set, conditional set, relayed write): the value written, and no other, is read under the key exactly until t + d, or for ever. |
| `ClientLaws.TouchActs` | src/cache.rs:689-751 | A touch answers the live value and the time now left, makes it live for exactly that time, and moves it to the newest place only if promoted; an expired entry goes; everything else stays. |
| `ClientLaws.IncrActs` | src/cache.rs:624-652 | An increment of a live counter answers the sum and its expiry less now and stores the sum until that expiry; no number or a sum out of range changes nothing; with nothing live it says so. |
| `ClientLaws.CasSetActs` | src/cache.rs:1077-1096 | A conditional set answers true if and only if no value is live (absent), one is (present), or one is and its digest is the given one; then it stores the value for its TTL, and otherwise no entry changes but an expired one of that key. |
| `ClientLaws.CasDeleteActs` | src/cache.rs:1108-1115 | A conditional delete answers true if and only if a live value has that digest; then the key is gone and every other entry is as it was, and otherwise no entry changes but an expired one of that key. |
| `ClientLaws.DeleteActs` | src/cache.rs:1681-1696 | A delete answers whether a live entry was there and takes out what is under the key and nothing else. |
| `ClientLaws.ClearActs` | src/cache.rs:2056-2077 | Clearing a namespace answers how many entries it had; the others stay, in the same order. |
| `ClientLaws.GetManyAnswers` | src/cache.rs:1490-1519 | In a batched get, whatever its cap and however names repeat, each answer is the value live when the batch began if and only if there is room left for it. |
| `MemoryBound.MarkAdds` | src/cache.rs:1922-1953 | Marking adds a mark's charge to the bytes charged the first time, for a key that is there, and nothing otherwise; so the bound still holds if and only if the sum fits. |
| `MemoryBound.ConditionAdds` | src/cache.rs:1769-1788 | Deciding a condition on a live entry adds a digest's charge exactly if a large value's digest is newly kept; on an expired one it only gives back. |
| `MemoryBound.BurialAdds` | src/cache.rs:1189-1214 | A handoff delete adds a tombstone's charge, to what is left after pruning and making room, exactly if the key has none there. |
| `MemoryBound.HandoffDeleteAdds` | src/cache.rs:1189-1214 | With nothing to prune and room below the cap, a handoff delete of an absent, untombstoned key adds exactly one tombstone's charge. |
| `MemoryBound.StepBound` | src/cache.rs:583-2217 | Each operation: if it wrote an entry, the store ends within the bound or with one item; otherwise its bytes grow by no more than the mark, digest or tombstone it charged and no item appears. |
| `MemoryBound.ExcessOverRuns` | src/cache.rs:583-2217 | Over every run: the store exceeds its memory bound by at most the marks, kept digests and tombstones charged since the last write, unless at most one item is left. |
| `MemoryBound.MarkPassesBound` | src/cache.rs:1922-1953 | A run from an empty store that ends over the bound with two items: two keys are written with room for both, and marking one passes the bound exactly when its charge no longer fits. |
| `MemoryBound.OneEntryBytes` | src/cache.rs:1396-1453 | The first entry is charged its name and value and 180 bytes, and a named namespace its name and 750. |
| `MemoryBound.ExtraBytes` | src/cache.rs:1769-1788 | A mark is charged the name and 80 bytes, a kept digest the name and 128. |
| `MemoryBound.TombstoneChargedBytes` | src/cache.rs:1189-1214 | A tombstone is charged both names and 250 bytes. |
| `Tombstones.PruneIsExact` | src/cache.rs:1226-1237 | On a time-ordered queue, pruning leaves exactly the tombstones younger than their TTL, unchanged. |
| `Tombstones.BuryKeepsBooks` | src/cache.rs:1189-1214 | A delete no earlier than those queued, repeats at one instant included, keeps every tombstone queued under its stamp, the queue time-ordered and the map within its cap; if it is not such a repeat, the queue stays repeat-free and within twice the cap. |
| `Tombstones.PruneKeepsBooks` | src/cache.rs:1226-1237 | Pruning keeps those facts. |
| `Tombstones.NoMoreThanQueued` | src/cache.rs:1189-1214 | There are never more tombstones than queued stamps. |
| `Tombstones.RepeatsAreUnbounded` | src/cache.rs:1203-1213 | Counterexample to the queue cap: deleting one key n times at one instant leaves n queued stamps, for every n. |
| `Tombstones.QueueCapIff` | src/cache.rs:1189-1214 | The exact condition: a delete leaves the queue within twice the cap if and only if there was room for one more stamp after pruning and making room, or some stamp is stale, so that compaction drops it. |
| `NoResurrection.DeletedStaysDeleted` | src/cache.rs:901-1279 | After the first handoff delete of a key at t, the key stays absent and tombstoned through every run, before t plus the tombstone TTL, of put-if-absent handoffs, sweeps, reclaims, evictions, reads and other keys' traffic, further deletes of the key included if none goes back in time, as long as fewer than the cap of deletes follow. |
| `NoResurrection.ZeroTtlStaysDeleted` | src/cache.rs:901-946 | The same after a handoff with a zero TTL. |
| `NoResurrection.StepLeavesGone` | src/cache.rs:983-1014 | No single operation other than a client write, a non-zero unconditional handoff or a clear of everything brings an absent, tombstoned key back. |
| `NoResurrection.BuryGuards` | src/cache.rs:1189-1214 | A further delete of any key, at the same instant or later, keeps a tombstone guarded and costs it at most one place towards the cap. |
| `NoResurrection.RepeatAtOneInstantLosesTombstone` | src/cache.rs:1189-1215 | Counterexample to a repeated delete renewing a tombstone: at one instant it does not renew its place in the queue, and two deletes later the cap drops it. |
| `NoResurrection.LostIffFirstAtCap` | src/cache.rs:1189-1215 | The exact condition: a delete of another key loses a tombstone younger than its TTL if and only if the map is at its cap after pruning and that tombstone's stamp is the first live one in the queue. |
| `UpkeepLaws.HandoffSetActs` | src/cache.rs:901-946 | A relayed write with a lifetime stores the value for it and answers whether that changed the value or its mortality; with a zero TTL it leaves no entry and a tombstone stamped now. |
| `UpkeepLaws.HandoffDeleteActs` | src/cache.rs:1176-1186 | A relayed delete answers whether a live entry was there and leaves none, a tombstone stamped now, and every other entry as it was. |
| `UpkeepLaws.PutIfAbsentActs` | src/cache.rs:983-1014 | A put-if-absent is stored if and only if no tombstone younger than its TTL stands for the key and no live copy is there but a marked one; then it lives for its TTL, unmarked, and otherwise no entry changes. |
| `UpkeepLaws.HandoffIsNoted` | src/cache.rs:948-954 | Only a write ahead of the ring is noted: its instant, and one more in a 64-bit counter that wraps. |
| `UpkeepLaws.ReclaimActs` | src/cache.rs:1045-1075 | A reclaim is paused if and only if the last noted handoff is younger than the quiet time; otherwise it removes exactly the listed, held, unowned keys with their tombstones, counting each once, and an owned or unlisted key keeps both. |
| `UpkeepLaws.MarkActs` | src/cache.rs:1922-1953 | A mark changes one thing: that the entry under the key is marked. |
| `UpkeepLaws.UnmarkAllActs` | src/cache.rs:1973-1979 | Unmarking clears the marks of the listed keys and changes nothing else. |
| `UpkeepLaws.SweepActs` | src/cache.rs:2142-2229 | What a sweep does to each key: one among the first SWEEP_BUDGET candidates is removed if past its TTL or marked and not kept, and unmarked if kept; only a marked one's tombstone goes with it; every other entry stays as it was. |
| `Reachable.EveryRunIsSound` | src/cache.rs:583-2217 | Every run from an empty store keeps the list strictly ordered by last use with no key twice, and every tombstone queued. |
| `Reachable.ApplySound` | src/cache.rs:583-2217 | Each operation keeps that. |
| `Reachable.BooksOverRuns` | src/cache.rs:1189-1279 | Over every run whose instants never go back: every tombstone is queued, the queue is time-ordered and holds only stamps of deletes in the run, and the map is within its cap; if no key is deleted twice at one instant, the queue is within its cap too. |
| `Sweeping.SweepSparesLive` | src/cache.rs:2142-2229 | Whatever stale candidates are queued, a sweep never removes an entry that is unexpired and unmarked at that moment. |
| `Sweeping.SweepsDrain` | src/cache.rs:2142-2229 | From an empty queue, enough marked sweeps at one instant to cover the backlog leave no expired entry and no mark. |
| `Sweeping.DrainedIffShortQueue` | src/cache.rs:2177-2203 | A sweep empties the queue if and only if the queue it started from (refilled if it was empty) is no longer than the budget, whatever it removed. |
| `SweepCounts.FewRemovedIsNotDrained` | src/cache.rs:2110-2111 | Counterexample to reading fewer-than-the-budget as drained, on a run from an empty store: more than two budgets of keys are written and marked, swept once, and the next budget of candidates deleted; the next plain sweep returns 0 and leaves marked keys queued. |
| `SweepCounts.KeptMarksAreNotCounted` | src/cache.rs:2129-2131 | The same for a sweep that keeps owned copies: on any store with nothing queued or expired and more than a budget of marks that are all kept, it returns 0 and leaves candidates queued. |
| `SweepCounts.SweepCountIsRemovable` | src/cache.rs:2177-2217 | The number a sweep returns is the number of distinct keys among its first SWEEP_BUDGET candidates that were removable when it began: expired, or marked and not kept. |
| `SweepCounts.CountShowsDrainedIff` | src/cache.rs:2104-2111 | The exact condition for the documented reading: a number below the budget means a drained queue if and only if the queue was no longer than the budget or its first SWEEP_BUDGET candidates are all distinct and removable. |
| `Batches.GetManyIsGets` | src/cache.rs:1490-1519 | A batched get whose values stay below its cap equals the sequence of single gets, state and answers, even when lazy expiry drops the namespace midway. |
| `Batches.GetManyWithinCap` | src/cache.rs:1490-1519 | The reply never exceeds the cap and has one answer per name. |
| `Batches.SetManyLast` | src/cache.rs:1461-1482 | A batch of sets equals the batch without its last pair followed by a plain set of that pair. |
| `Touches.TouchManyAnswers` | src/cache.rs:770-831 | A batched touch, whatever its cap and however names repeat: one answer per name, never more value bytes than the cap, each answer the value live when the batch began if and only if there is room left for it. |
| `Touches.TouchManyRefreshes` | src/cache.rs:770-831 | A key has the new expiry after the batch if and only if some answer carries its value; one left out of the whole reply keeps its value and expiry, or is dropped if it was past its TTL already. |
| `Touches.TouchLeftOutIsUntouched` | src/cache.rs:770-831 | At any position of a batched touch answered with nothing, that step refreshed nothing: every item after it was there before it, and only an expired one of that name can be gone. |
| `Touches.TouchManyIsTouchesIff` | src/cache.rs:770-831 | At any representable instant an uncapped batch equals the touches one by one, state and answers, if and only if its TTL is not zero or no live name is repeated. |
| `Touches.TouchAllAnswers` | src/cache.rs:689-751 | One by one, every touch answers the value live at the start, except that a touch which expires its entry at once makes each later touch of that name a miss. |
| `Touches.TouchManyLast` | src/cache.rs:770-831 | A batch over one more name is that batch, then that name. |
| `Batches.CounterOverRuns` | src/cache.rs:624-652 | Over any run of increments on a live counter the value is the start plus the sum of the deltas that did not overflow, and its absolute expiry never moves. |
| `Batches.IncrementOnce` | src/cache.rs:624-652 | One increment: the sum if it is in range, otherwise nothing changes at all. |
| `Words.Fmix64IsBijective` | src/hash_ring.rs:155-162 | The finalizer is a bijection on 64-bit words, with an explicit two-sided inverse. |
| `Words.XorShiftUndoesItself` | src/hash_ring.rs:155-162 | The xor-shift by 33 is its own inverse on 64-bit words. |
| `Words.TimesUndone` | src/hash_ring.rs:155-162 | Wrapping multiplication by a constant is undone by multiplying by its inverse modulo 2^64. |
| `Words.TiesIgnoreTheKey` | src/hash_ring.rs:155-162 | Two nodes' scores tie on a key if and only if their names hash alike, whatever the key. |
| `Ranking.FnvContinue` | src/hash_ring.rs:54-62 | The byte loop computes the recursive definition of FNV-1a from any state. |
| `Ranking.FnvStreams` | src/hash_ring.rs:54-62 | Hashing in parts equals hashing the concatenation, for every split and state. |
| `Ranking.KeyHashStreams` | src/hash_ring.rs:85-99 | Continuing the namespace's state with the name gives the one-shot hash of the canonical input. |
| `Ranking.HashInputDeterminesKey` | src/hash_ring.rs:27-40 | Among non-empty namespaces the hash input determines namespace and name. |
| `Ranking.DefaultNamespaceSharesInputs` | src/hash_ring.rs:27-40 | Across the default namespace it does not: some default-namespace name has the same input as any given namespaced key. |
| `Ranking.KeyHasher.Hash` | src/hash_ring.rs:134-150 | Whatever was hashed before, the remembered state gives the one-shot hash, given that an allocation's address and length fix its content. |
| `Ranking.AheadTotal` | src/hash_ring.rs:208-237 | The ranking is a strict total order on names in which the higher score comes first. |
| `Ranking.AheadTransitive` | src/hash_ring.rs:11-17 | That order is transitive. |
| `HashRing.TopIsUnique` | src/hash_ring.rs:208-237 | At most one list is sorted, made of members, of the right length and ahead of everyone outside it. |
| `HashRing.RankedIsTop` | src/hash_ring.rs:208-237 | The full ranking of a member set is such a list. |
| `HashRing.OwnersIsTop` | src/hash_ring.rs:208-237 | Its first R entries are the top R. |
| `HashRing.OwnerIffRank` | src/hash_ring.rs:247-283 | A node is an owner if and only if it is a member outranked by fewer than R members. |
| `OwnerLaws.OwnersAreBest` | src/hash_ring.rs:208-237 | The owners, by scores and names alone: scores descend, a tie goes to the name with the smaller first differing byte or the prefix, and no member left out has a better claim than one listed. |
| `OwnerLaws.OwnerIffFewOutscore` | src/hash_ring.rs:247-283 | A node owns a key if and only if it is a member and fewer than R members have a higher score, or an equal one and a smaller name. |
| `OwnerLaws.BeforeIsSmaller` | src/hash_ring.rs:208-237 | Names compare by the first byte where they differ, a prefix before what extends it. |
| `HashVectors.FnvVectors` | src/hash_ring.rs:476-480 | The published FNV-1a hashes of the empty string and of "a". |
| `HashVectors.ScoreVectors` | src/hash_ring.rs:483-490 | The finalizer's asserted vectors at 0 and 1, and that a score is the finalizer of the exclusive or: equal hashes score zero. |
| `HashVectors.HashInputLayout` | src/hash_ring.rs:369-378 | What a key's hash is taken of: its name alone, or its namespace's length from the most significant of four bytes, the namespace, the name. |
| `OwnerAlgorithms.NewRing` | src/hash_ring.rs:186-194 | Construction keeps each name once, at its first occurrence and in order, with its hash. |
| `OwnerAlgorithms.OwnersHashed` | src/hash_ring.rs:208-237 | Partial selection, truncation and sorting return the first R of the unique ranking, for every ring, key hash and R; its scores descend, ties by name, and no member left out has a better claim. |
| `OwnerAlgorithms.IsOwnerHashed` | src/hash_ring.rs:247-283 | The early-exit count answers true exactly for the members of that list, which are the members that fewer than R others outscore. |
| `OwnerAlgorithms.OwnersBounded` | sdk/go/hashring.go:135-190 | The Go bounded insertion returns the same list, and the empty list for a non-positive R; its scores descend, ties by name. |
| `Membership.LeaveKeepsOwners` | src/hash_ring.rs:11-17 | Removing members never worsens a survivor's rank and keeps it an owner. |
| `Membership.JoinShiftsRanks` | src/hash_ring.rs:11-17 | A join moves down by one exactly the nodes it outranks. |
| `Membership.JoinKeepsOrder` | src/hash_ring.rs:11-17 | The new ranking without the joiner is the old ranking. |
| `Membership.JoinDisplacesOne` | src/hash_ring.rs:11-17 | A join changes the owners only by entering them, and then displaces nobody while there is room and exactly the old last owner when there is none. |
| `Membership.KeepsHashed` | src/command.rs:113-141 | The node's rule with its shortcuts decides the declarative rule, for every ring history. |
| `Membership.KeepsIffNoHolderSurvives` | src/command.rs:78-142 | If only leaves happened since the key was taken, with unchanged replication, and this node owns the key now: its dead copy is kept if and only if no other node that owned the key under any of those rings is still a member. |
| `Membership.KeepsByClaims` | src/command.rs:78-142 | The dead-copy rule for any history, by claims alone: kept if and only if this node holds the key now and, if some earlier ring took it, no other node that holds it now held it under that ring or a newer one; a member that no longer owns it does not count. |
| `Wire.ParseStable` | src/command.rs:836-884 | A decided request, accepted or refused, stays decided and the same whatever bytes arrive after it. |
| `Wire.NextEntryStable` | src/command.rs:1960-2003 | A roster entry that is found or refused stays so when more bytes arrive. |
| `Wire.RosterStable` | src/command.rs:1817-1946 | So does a whole roster. |
| `RequestReader.ReadHead` | src/command.rs:953-1789 | The header reader with its per-key loops computes the specification's header, errors in the same order. |
| `RequestReader.ReadKeyLengths` | src/command.rs:1123-1132 | The key-length loop yields the specification's lengths or its first error, without trusting the claimed count. |
| `RequestReader.ReadPairLengths` | src/command.rs:1258-1268 | The same for key and value lengths. |
| `RequestReader.AddLengths` | src/command.rs:2014-2024 | The checked additions give the body's end, or overflow exactly when it exceeds a `usize`. |
| `RequestReader.Reader.Append` | src/command.rs:868-884 | Appending bytes keeps the remembered progress true of the buffer. |
| `RequestReader.Reader.FindHeaderLineEnd` | src/command.rs:930-951 | Resuming the scan finds the buffer's first line end. |
| `RequestReader.Reader.ScanRoster` | src/command.rs:1881-1916 | The resumed roster loop reaches the specification's verdict and keeps what it confirmed. |
| `RequestReader.Reader.DecodeRoster` | src/command.rs:1927-1935 | Re-reading the roster from the consumed frame gives the same entries, or the UTF-8 error. |
| `RequestReader.Reader.ParseMigrate` | src/command.rs:1817-1946 | A migration resumed from valid progress is parsed as from scratch. |
| `RequestReader.Reader.TakeFrame` | src/command.rs:2056-2061 | A fixed-layout request is gated if it has many keys and then consumed whole, or left untouched. |
| `RequestReader.Reader.ParseWithMode` | src/command.rs:953-1789 | From any valid progress the answer and the bytes consumed are those of one-shot parsing, up to the charge request. |
| `RequestReader.Reader.ParseResumable` | src/command.rs:868-884 | The same; Incomplete and ChargeRequired leave the buffer untouched and the progress valid, and any other answer resets it; no unpaid request of many keys is parsed, and the charge asked for is its keys, whether it has values, and its length. |
| `Requests.Serve` | src/command.rs:846-884 | For every schedule of arriving bytes and parse attempts, paid or not, what has been read plus the buffer stands for the whole stream; once it asks for more or refuses, requests, error and leftover are those of reading the stream at once; a request of many keys is never read but by an attempt that was paid for. |
| `Requests.ReadAllResumes` | src/command.rs:846-884 | Reading a stream split anywhere resumes exactly where it stopped. |
| `Requests.ChunkingIndependent` | src/command.rs:846-884 | Reading chunk by chunk, in any split, equals reading the concatenation at once, in every mode policy. |
| `Frames.FrameParses` | src/command.rs:1022-1604 | Every client command, with valid arguments, parses from its frame as exactly that command and tag, leaving what follows, tagged or not. |
| `Frames.HexRoundTrip` | src/command.rs:2120-2138 | A digest written as lower-case hexadecimal reads back. |
| `Frames.FramedParses` | src/command.rs:1022-1604 | Any clean header line followed by the body it announces is consumed whole and split where it was joined. |
| `ClusterFrames.InternalFrameParses` | src/command.rs:966-1722 | The handshake and cluster-internal commands parse from their documented frames, tags, flags and optional fields included. |
| `ClusterFrames.MigrationParses` | src/command.rs:1817-1946 | A migration's frame with any roster up to the limit parses as that migration. |
| `Canonical.ParsedIsWellFormed` | src/command.rs:953-1789 | Whatever bytes arrive, a parsed command is well formed (non-empty keys and tokens, sizes, valid UTF-8, bounded roster) and has a tag exactly if its mode and kind call for one. |
| `Canonical.CanonicalFrameParses` | src/command.rs:953-1789 | Each parsed request stands for one canonical frame, no longer than the bytes it was read from: framing the result again and parsing that gives the same command and tag, whatever follows. |
| `HeaderSizes.HeaderNoLonger` | src/command.rs:953-1789 | Whatever a header line says, its canonical form, with no leading zero and the plain letter for the default namespace, is no longer than the line. |
| `GoFrames.GetFrame` | sdk/go/connection.go:315-328 | The get frame built by appending is the frame `Frames.FrameParses` is about. |
| `GoFrames.DeleteFrame` | sdk/go/connection.go:406-419 | The delete frame built by appending is the frame `Frames.FrameParses` is about. |
| `GoFrames.SetFrame` | sdk/go/connection.go:357-377 | The set frame built by appending is the frame `Frames.FrameParses` is about. |
| `GoFrames.IncrFrame` | sdk/go/connection.go:460-470 | The increment frame built by appending is the frame `Frames.FrameParses` is about. |
| `GoFrames.CasFrame` | sdk/go/connection.go:509-526 | The compare-and-set frame built by appending is the frame `Frames.FrameParses` is about. |
| `GoFrames.DeleteIfMatchesFrame` | sdk/go/connection.go:558-568 | The compare-and-delete frame built by appending is the frame `Frames.FrameParses` is about. |
| `GoFrames.TouchFrame` | sdk/go/connection.go:292-307 | The touch frame built by appending is the frame `Frames.FrameParses` is about. |
| `GoFrames.ClearFrame` | sdk/go/connection.go:609-614 | The clear frame built by appending is the frame `Frames.FrameParses` is about. |
| `GoFrames.ClearAllFrame` | sdk/go/connection.go:618-621 | The flush frame built by appending is the frame `Frames.FrameParses` is about. |
| `GoFrames.MultiGetFrame` | sdk/go/connection.go:655-670 | The batched get frame, its two loops included, built by appending is the frame `Frames.FrameParses` is about. |
| `GoFrames.MultiTouchFrame` | sdk/go/connection.go:729-751 | The batched touch frame, its two loops included, built by appending is the frame `Frames.FrameParses` is about. |
| `GoFrames.MultiSetFrame` | sdk/go/connection.go:783-805 | The batched set frame, its two loops included, built by appending is the frame `Frames.FrameParses` is about. |
| `GoFrames.PipelineParses` | sdk/go/connection.go:917-959 | Any sequence of requests framed back to back is read by the node as exactly those requests in order, nothing lost, invented or left over. |
| `Responses.WireSecondsRoundsUp` | src/response.rs:25-27 | The wire TTL is the least whole number of seconds covering the remaining time, under a second more, and zero only for zero. |
| `Responses.EncodeMulti` | src/response.rs:214-244 | The two loops write the documented frame: a token per key, the tag, then the hits' values in order. |
| `Responses.EncodeMultiAck` | src/response.rs:250-266 | The loop writes the documented roster. |
| `Responses.EncodeMultiTouch` | src/response.rs:270-287 | The loop writes the documented roster. |
| `Responses.Encode` | src/response.rs:290-419 | Every client-visible reply is its letter, its spaced fields with the tag last, a line end and its body. |
| `ResponseReader.Stream.NextLine` | sdk/go/connection.go:1507-1523 | The byte loop reads the line up to its end, or gives up past the cap, as the declarative bound says. |
| `ResponseReader.Stream.ReadValue` | sdk/go/connection.go:1113-1204 | A value reply is read as the specification says, failing alike and leaving the stream after its body. |
| `ResponseReader.Stream.ReadMulti` | sdk/go/connection.go:1218-1278 | A batched get's reply likewise. |
| `ResponseReader.Stream.ReadEntries` | sdk/go/connection.go:1254-1275 | The token loop reads each hit as its length is read and stops at the first violation of a cap. |
| `ResponseReader.Stream.ReadAckRoster` | sdk/go/connection.go:1383-1419 | A body-less roster likewise. |
| `ResponseReader.Stream.ReadStatus` | sdk/go/connection.go:1316-1349 | A bare status likewise. |
| `ResponseReader.Stream.ReadOne` | sdk/go/connection.go:1107-1372 | One reply is read as the specification says, for any bytes at all. |
| `ReplyRoundTrip.ReplyReads` | src/response.rs:290-419 | Every reply is read back exactly, with its tag, leaving the stream at the next one, if and only if it is within the client's caps; otherwise it is refused as malformed. A rejection is seen as one. |
| `ReplyRoundTrip.StreamReads` | sdk/go/connection.go:996-1100 | Replies sent back to back are received back to back, all of them and in order, down to the last byte. |
| `Pipelining.RunInv` | sdk/go/connection.go:914-1100 | Every interleaving of writers, reader and poisoners keeps the invariant: requests numbered and tagged in order, and each in exactly one place. |
| `Pipelining.StepInv` | sdk/go/connection.go:829-1100 | Each critical section and send keeps it. |
| `Pipelining.AtMostOneResult` | sdk/go/connection.go:839-865 | No request's channel is ever sent a second result. |
| `Pipelining.EveryRequestAnswered` | sdk/go/connection.go:839-865 | Once the connection is closed and its drain and read loop are done, every registered request has exactly one result. |
| `Pipelining.ClosedFinishes` | sdk/go/connection.go:839-865 | From any reachable closed state, the reader's and poisoner's own remaining steps, without the server, answer every request. |
| `Pipelining.PendingTagsConsecutive` | sdk/go/connection.go:938-941 | Pending requests carry consecutive tags modulo 2^32, oldest first, ending at the next tag. |
| `Pipelining.OutstandingTagsDistinct` | sdk/go/connection.go:938-941 | With no more than 2^32 requests outstanding a tag names at most one of them. |
| `Pipelining.ClosedStaysEmpty` | sdk/go/connection.go:917-936 | Nothing is queued on a closed connection and nothing is registered on it again. |
| `Pipelining.NoMisdelivery` | sdk/go/connection.go:1029-1098 | Whatever the server sends, the n-th request registered is answered with nothing but the n-th reply read off the connection and, on a tagged connection, only if that reply echoes its tag. |
| `Serving.FramesInQueueOrder` | sdk/go/connection.go:917-959 | On every run frames go out in queue and tag order: the i-th frame written is the i-th request's. |
| `Serving.ServedInOrder` | sdk/go/connection.go:996-1100 | On a run on which nobody else closes the connection and each reply finds a request, every reply that fits its request is delivered to it by the time the read loop stops. |
| `Serving.AnswersReachRequests` | sdk/go/connection.go:996-1100 | From the node's bytes to the client's channels: if what is read is the encoding of one answer for each request in order, the i-th request's channel is given the i-th answer as the client sees it, whatever else is registered and written on the way. |
| `Refusals.NoBusyAnswer` | sdk/go/connection.go:1055-1075 | On no run is a busy reply delivered to a request as an answer. |
| `Refusals.UntrustedEndsReading` | sdk/go/connection.go:1055-1098 | Once a busy, unsolicited or mistagged reply is in hand, the loop reads nothing more, and when it stops the connection is closed. |
| `Refusals.UntrustedLosesRequest` | sdk/go/connection.go:1065-1098 | The request taken for such a reply is told that the connection is lost, and nothing else. |
| `Refusals.RefusalTurnsDownOldest` | sdk/go/connection.go:839-865 | After a refusal read on an open connection the oldest pending request, and only that one, is told it was turned down; every other one pending is told the connection is lost, and once the rejections are done each has been told. |
| `Refusals.ClosingLosesPending` | sdk/go/connection.go:839-865 | When an open connection is closed for any other reason, everyone pending is told that it is lost. |
| `Refusals.OnlyRefusalsTurnDown` | sdk/go/connection.go:854-860 | Without a refusal nobody is ever told that they were turned down. |
| `ConnectionModel.Connection.RegisterRequest` | sdk/go/connection.go:914-957 | Claiming a tag and a place in the queue is one step, refused exactly when the connection is closed. |
| `ConnectionModel.Connection.Interleave` | sdk/go/connection.go:829-1100 | Any schedule of these steps leaves the state the protocol says, with its invariant. |
| `ConnectionModel.Connection.ReadLoop` | sdk/go/connection.go:996-1100 | The read loop, with any steps of other goroutines between its own: what happens is a run of the protocol, what is read is a prefix of what the stream's bytes come to, it ends stopped on a closed connection, and unless someone else closes it every request has exactly one result: its own answer, if the stream is the node's answers; no busy reply is ever delivered. |
| `ConnectionModel.Connection.RejectAll` | sdk/go/connection.go:854-860 | The rejections of a poisoning, with any steps of others in between, leave nothing to reject and move neither the reader nor the stream. |
| `ConnectionModel.Connection.Attempt` | sdk/go/connection.go:914-990 | One attempt, with any steps of others while it writes: it is surely not sent exactly if the connection was closed or the write failed; otherwise it has its number and tag and is queued, in the reader's hand, about to be rejected or answered. A failed write leaves the connection closed and nothing queued. |
| `EndToEnd.ReplyArrives` | src/command.rs:560-735 | A client's single-key or clearing request, framed, parsed, applied and answered: the node is left as the cache operation leaves it, and the client reads back exactly the node's reply, echoing its tag, whenever it is within the client's caps. |
| `EndToEnd.GetRoundTrip` | sdk/go/connection.go:219-241 | What the client's get returns: v if a live entry has value v under the key and v is within the client's cap, and nothing exactly if nothing is live there. |
| `EndToEnd.SetRoundTrip` | sdk/go/connection.go:337-352 | The client's set returns without error, and the value is then under the key for its TTL in seconds. |
| `EndToEnd.SetThenGetRoundTrip` | sdk/go/connection.go:219-241 | From client to node and back: what was set is what the next get returns, whatever the node held before, until the TTL given, in seconds, has passed, and then nothing. |
| `EndToEnd.DeleteRoundTrip` | sdk/go/connection.go:386-403 | The client's delete returns whether a live entry was there, and leaves none. |
| `EndToEnd.CasRoundTrip` | sdk/go/connection.go:485-502 | The client's compare-and-set returns whether its condition is met by the live entry, and stores the value exactly then. |
| `EndToEnd.CasDeleteRoundTrip` | sdk/go/connection.go:536-553 | The client's delete-if-matches returns whether a live value has that digest, and deletes it exactly then. |
| `EndToEnd.IncrRoundTrip` | sdk/go/connection.go:432-451 | The client's increment returns the sum and the whole seconds left, rounded up, -1 for no TTL; it reports a value that is no number or a sum out of range, and returns nothing when the entry is past its TTL. |
| `EndToEnd.ClearRoundTrip` | sdk/go/connection.go:576-587 | The client's clear returns without error and leaves everything but that namespace. |
| `EndToEnd.ChargeAsked` | src/command.rs:2029-2052 | An unpaid request of many keys is asked to be charged for exactly the keys it names, whether it carries values, and its frame's length; any other, and one paid for, is parsed. |

## Left out

- `src/server.rs`, the discovery and proxy binaries and `sdk/go/client.go` (connections, forwarding, retries, redial): no property here rests on them.
- `Command::execute` for batches, touches and handoffs: one call per arm, as for the single-key commands of `EndToEnd`.
- Operation counters, statistics snapshots, `keys`, `peek_entry` and logging: easy members.
- The `last_slot` shortcut of `find_namespace`, `free_off_thread` and buffer sharing: they change cost, not results.
- The upper end of `usize` and `u64` for byte counters and the LRU clock: counters are unbounded here, so only underflow is excluded.
- SHA-256 itself, and hash-map iteration order beyond "every key once".
- TLS, sockets, deadlines and the transient-retry loop of `request`: timing and I/O.
- DEFLATE compression and its semaphore in `sdk/go/compression.go`.
- Unicode white space beyond ASCII in Go's `strings.Fields`: it matters only for header lines no node writes.
- ResponseReader.Stream.ReadOne: says nothing about how many bytes are consumed by a reply that is refused, because the connection is closed then.
- RequestReader.Reader.ParseResumable: assumes a buffer no longer than the largest `usize`, which memory guarantees.
- Serving.AnswersReachRequests: says nothing of a run on which a reply arrives before any request is queued or someone else closes the connection; `Pipelining.EveryRequestAnswered` covers what every request is told then.
- Pipelining.NoMisdelivery: on an untagged connection a server that skips or repeats a reply shifts later answers by position, as the source documents; only the order is promised.
- Responses.WireSecondsRoundsUp: durations are unbounded here, so the one-second rounding at the largest `u64` is not modelled.
- The stability of equal elements in the library sort: the elements sorted are distinct.
