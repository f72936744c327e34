# Lolly: models and proofs

Lolly is an HTTP server and reverse proxy written in Go. This project models the parts of it that carry
hard invariants - the algorithms and the lock-based protocols - in Dafny 4.11, and proves what they
promise. `dafny verify dfyconfig.toml` checks everything.

Code that works by changing things step by step is a class (or a method with a loop) whose methods are
tied to a mathematical specification, and the theorems are lemmas about that specification. Concurrent
code is a step machine besides: one step per critical section or atomic operation, theorems over every
interleaving, and the class's methods are those steps. Instants are parameters; where their order matters
they do not go back.

| files | what they model |
|---|---|
| `Ring.dfy`, `ConsistentHash.dfy` | the consistent-hash ring: lookup, failover walk, rebuilding |
| `Target.dfy`, `Balancers.dfy`, `WeightedPicks.dfy` | upstream availability, round robin, weighted round robin, least connections |
| `Failover.dfy`, `FailoverLaws.dfy` | the proxy's retry loop |
| `Recency.dfy`, `FileCacheModel.dfy`, `FileCacheLaws.dfy`, `FileCache.dfy` | recency lists; the file cache with its two limits |
| `CacheLock.dfy` | the proxy cache's generation lock |
| `UdpModel.dfy`, `UdpServer.dfy` | the UDP session table |
| `RadixModel.dfy`, `RadixSearch.dfy`, `RadixTree.dfy` | the location tree: insertion and longest-prefix search |
| `TimerModel.dfy`, `TimerManager.dfy` | Lua timers |
| `SharedDictModel.dfy`, `SharedDictLaws.dfy`, `SharedDict.dfy`, `Decimal.dfy` | the Lua shared dictionary and its decimal counters |
| `EngineModel.dfy`, `LuaEngine.dfy` | Lua coroutines and the pool of interpreter states |
| `IncludeModel.dfy`, `ConfigLoader.dfy` | configuration includes |
| `Ewma.dfy` | integer moving averages under compare-and-swap |
| `SessionTickets.dfy` | the session-ticket key window and its file |
| `Wrappers.dfy` | optional values |

## Where the code and its documentation part

The model follows the code; each difference is stated exactly, with the condition under which the code
does meet the promise.

- Longest-prefix search compares the lengths of node segments, not of paths
  (internal/matcher/radix.go:256). `RadixSearch.FindsLongestIff` says exactly for which trees the answers
  are still the documented ones, `RadixSearch.NestedLocations` is the plainest case where they are not.
- Failover on the hash ring agrees with a rebuilt ring, for every key, exactly when each slot that a skipped
  target has taken over from a kept one is followed by a slot of the same kept target
  (`Ring.FailoverIsRebuildIff`); a hash collision can break it (`Ring.CollisionBreaksFailover`) and need not
  (`Ring.HarmlessCollision`).
- Weighted windows stay exact across the 64-bit counter's wrap-around exactly when the total weight divides
  the counter's range or there is one target (`WeightedPicks.FairAcrossWrapIff`); weights 1 and 2 are not picked
  fairly there (`Balancers.UnfairAtWrapAround`).
- Flushing expired dictionary entries only sweeps the expired tail; it clears all of them exactly when no
  expired entry was used more recently than a live one (`SharedDictModel.FlushClearsAllIff`,
  `SharedDictModel.FlushLeavesExpired`). Counters are 64-bit: an answer is the exact sum exactly when it fits
  (`SharedDictModel.LeavingRange`).
- Cancelling a timer can return true although the callback still runs: exactly when the timer had already
  looked at its cancel channel, has a callback and finds the queue open (`TimerModel.CancelTooLateIff`,
  `TimerModel.CancelTooLateReachable`).
- WaitAll can answer that all timers have finished and yet one runs: exactly when an At call had got past its
  look at the stop flag (`TimerModel.WaitAllMissesIff`, `TimerModel.WaitAllMissesReachable`).
- Closing the timer manager is documented as idempotent; two overlapping calls close the queue twice
  (`TimerModel.OverlappingClosesPanic`). A panic can come exactly while the stop flag is down or when two calls
  have got past the check (`TimerModel.MayPanicIff`, `TimerModel.CloseIsSafeIff`). After WaitAll it does
  nothing (`TimerModel.CloseAfterWaitAll`).
- A returned interpreter state can be closed exactly when the pool was created larger than its maximum and the
  coroutine limit admits anyone (`EngineModel.ClosesIff`).
- The cache lock lets one caller generate a response only among calls without a timeout, and the proxy
  passes five seconds when none is configured. Before the key is stored or released an arriving caller can go
  ahead exactly when the key is not pending - any entry, expired ones included, bypasses the lock - or it came
  with a timeout (`CacheLock.ArrivalGoesAheadIff`, `CacheLock.TimeoutOvertakes`, `CacheLock.Stampede`). Whoever
  waits with a timeout ends up going ahead, never served the entry it waited for
  (`CacheLock.WaitingGoesAhead`, `CacheLock.HerdAfterStore`), although it is told that it has the lock; whoever
  was handed the channel does so exactly when it finds no usable entry (`CacheLock.HandedGoesAheadIff`).
- A file larger than the byte limit empties the whole file cache, itself included
  (`FileCacheModel.SetStores`).
- A UDP session's own removal closes another session exactly when the session is closed already and its client
  has a session again (`UdpModel.RemovalHitsOtherIff`), which a stale response goroutine can bring about
  (`UdpModel.StaleRemovalReachable`).
- A moving average of zero means "nothing recorded", which differs from averaging exactly when the next
  sample is not zero (`Ewma.MarkerDiffersIff`).
- The newest session-ticket key is documented as the one for new tickets, but the keys are handed over oldest
  first, and only once, before any rotation (`SessionTickets.SessionTicketManager.ApplyToTLSConfig`,
  `SessionTickets.ApplyAndRotate`). So the first key handed over is the manager's newest exactly as long as it was
  the only one and no rotation has succeeded (`SessionTickets.HandedOverIff`).

## Model

| member | source | states |
|---|---|---|
| `Ring.Successor` | internal/loadbalance/consistent_hash.go:79-87 | Every non-empty set of slots has a slot clockwise of any hash: the least one not below it, or after wrap-around the least of all; the answer is that slot. |
| `Ring.SuccessorUnique` | internal/loadbalance/consistent_hash.go:79-87 | There is only one such slot, so "clockwise successor" defines plain selection. |
| `Ring.MinimalDisruption` | internal/loadbalance/consistent_hash.go:109-142 | Leaving any targets out of the ring moves no key whose owner stays, hash collisions included. |
| `Ring.RemovalMovesOnlyItsKeys` | internal/loadbalance/consistent_hash.go:109-142 | Removing one target changes the owner of a key only if that target owned it; read backwards, adding one moves keys only to the newcomer. Collisions allowed, the later target winning the slot. |
| `Ring.WalkStopsAtRebuiltSlot` | internal/loadbalance/consistent_hash.go:266-274 | For one key, the failover walk stops at the slot that a ring rebuilt without the skipped targets would pick if and only if that slot is not taken over by a skipped target; then both pick the same target. |
| `Ring.SlotsAgreeIff` | internal/loadbalance/consistent_hash.go:236-278 | For all keys at once: the walk stops slot for slot where a rebuilt ring would if and only if no slot of a kept target is taken over by a skipped one. |
| `Ring.FailoverIsRebuildIff` | internal/loadbalance/consistent_hash.go:236-278 | Skipping and rebuilding pick the same target for every key if and only if each slot taken over by a skipped target is harmless: the next slot at which the walk may stop belongs to the very target the slot has on the rebuilt ring. |
| `Ring.HarmlessCollision` | internal/loadbalance/consistent_hash.go:132-135 | A ring with a collision on which all answers still agree. |
| `Ring.WalkKept` | internal/loadbalance/consistent_hash.go:266-274 | The walk answers with acceptable targets only. |
| `Ring.FailoverIsRebuild` | internal/loadbalance/consistent_hash.go:236-278 | With no hash value shared by two targets, the failover walk picks for every key what a rebuilt ring picks, and finds nothing exactly when every target with a virtual node is left out. |
| `Ring.CollisionBreaksFailover` | internal/loadbalance/consistent_hash.go:132-135 | A three-target ring with one collision on which the walk and the rebuilt ring answer differently. |
| `ConsistentHashing.ConsistentHash.Rebuild` | internal/loadbalance/consistent_hash.go:96-99 | A rebuild leaves the ring of the healthy targets in list order, map and sorted hash list holding exactly its slots with their owners. |
| `ConsistentHashing.ConsistentHash.EnsureRebuilt` | internal/loadbalance/consistent_hash.go:101-106 | Builds the ring only the first time; a ring built before stays, whatever list is passed. |
| `ConsistentHashing.ConsistentHash.FillCircle` | internal/loadbalance/consistent_hash.go:118-137 | The loops over targets and virtual nodes build exactly the ring of the list and change no healthy flag and no set of virtual nodes. |
| `ConsistentHashing.ConsistentHash.AddTarget` | internal/loadbalance/consistent_hash.go:132-135 | Adding a target appends one ring entry; on a slot already taken it becomes the owner. |
| `ConsistentHashing.RingGrows` | internal/loadbalance/consistent_hash.go:118-137 | The ring has one entry after the other for the healthy targets of the list, each with the virtual nodes it has or the hashes of its numbered keys, later ones taking over shared slots. |
| `ConsistentHashing.VirtualKeysDiffer` | internal/loadbalance/consistent_hash.go:126-127 | A virtual node's key is the URL, a number sign and its number in decimal; the keys of one URL are all different. |
| `ConsistentHashing.ConsistentHash.FillVirtualHashes` | internal/loadbalance/consistent_hash.go:123-130 | A target without virtual nodes gets the hashes of its URL with the numbers from zero on. |
| `ConsistentHashing.Sort` | internal/loadbalance/consistent_hash.go:140-140 | The hash list is sorted and a permutation of what was collected. |
| `ConsistentHashing.ConsistentHash.Search` | internal/loadbalance/consistent_hash.go:81-83 | Binary search returns the boundary: all hashes before it are below the key, all from it on are not. |
| `ConsistentHashing.ConsistentHash.SelectByKey` | internal/loadbalance/consistent_hash.go:70-88 | Plain selection answers with the owner of the key on the ring of the last rebuild (wrap-around included), nobody exactly when the ring is empty; it does not look at health again. |
| `ConsistentHashing.ConsistentHash.SelectExcludingByKey` | internal/loadbalance/consistent_hash.go:236-278 | Failover selection answers with the first slot clockwise whose target's URL is healthy in the list passed and not excluded, over the ring of the last rebuild. |
| `ConsistentHashing.ConsistentHash.WalkFrom` | internal/loadbalance/consistent_hash.go:266-277 | The index loop with wrap-around finds exactly the clockwise first acceptable slot, or shows there is none. |
| `ConsistentHashing.TargetSet` | internal/loadbalance/consistent_hash.go:244-254 | The lookup table holds exactly the healthy URLs that are not excluded, exclusion winning. |
| `ConsistentHashing.FilteredRing` | internal/loadbalance/consistent_hash.go:236-278 | Filtering the ring of a list by allowed URLs is building the ring of the filtered list. |
| `ConsistentHashing.SkippingIsRebuilding` | internal/loadbalance/consistent_hash.go:236-278 | On a ring of the list at hand with no shared hash value, skipping the excluded targets equals rebuilding from the list without them, and finds nothing exactly when every healthy target is excluded. |
| `ConsistentHashing.WalkAvoidsExcluded` | internal/loadbalance/consistent_hash.go:244-274 | Whatever the ring, failover selection never answers with an excluded URL, only with one healthy in the list. |
| `ConsistentHashing.RebuildMovesOnlyTheirKeys` | internal/loadbalance/consistent_hash.go:96-142 | Rebuilding without some targets moves only keys those targets owned. |
| `Targets.Target.IsAvailable` | internal/loadbalance/balancer.go:324-345 | True exactly when the target is healthy, not down, below its connection limit if one is set, and, if failures are limited, has fewer failures or its failure period is over; resetting an ended failure period changes the answer for no later instant. |
| `Targets.Target.RecordFailure` | internal/loadbalance/balancer.go:350-363 | Counts failures; reaching the limit starts a failure period of the configured length, or ten seconds, throughout which the target is unavailable. |
| `Targets.Target.RecordSuccess` | internal/loadbalance/balancer.go:367-373 | Clears the failure state, when failures are counted at all. |
| `Balancers.CandidateMembers` | internal/loadbalance/balancer.go:380-429 | A candidate is an available, not excluded target of the list; a backup only when no primary qualifies; every qualifying target of that kind is a candidate; none exactly when nothing qualifies. |
| `Balancers.FilteredInOrder` | internal/loadbalance/balancer.go:380-429 | Filtering keeps the order of the list and how often a target is in it: what is left of two lists in a row is what is left of each, one after the other, and a single target is left exactly if it is kept. |
| `Balancers.Filter` | internal/loadbalance/balancer.go:409-429 | The filtering loop computes exactly the candidates in list order, although checking availability changes targets on the way. |
| `Balancers.RoundRobin.SelectExcluding` | internal/loadbalance/balancer.go:433-442 | Picks the candidate at the counter modulo their number and advances the 64-bit counter, wrap-around included; nobody and no advance when there is no candidate. |
| `Balancers.WeightedRoundRobin.SelectExcluding` | internal/loadbalance/balancer.go:446-483 | Picks the candidate whose stretch of cumulated shares holds the counter modulo the total weight, and advances the counter. |
| `Balancers.WeightedRoundRobin.PickByWeight` | internal/loadbalance/balancer.go:202-230 | The same for a given list of candidates. |
| `Balancers.WeightedRoundRobin.TotalWeight` | internal/loadbalance/balancer.go:202-209 | The accumulation loop sums the shares, a weight of zero or less counting one. |
| `Balancers.WeightedRoundRobin.AtPosition` | internal/loadbalance/balancer.go:218-230 | The second loop finds the owner of the position and always returns from within: the trailing fallback is unreachable. |
| `Balancers.EqualShares` | internal/loadbalance/balancer.go:433-442 | Round robin is weighted round robin with equal shares. |
| `Balancers.RunIsFair` | internal/loadbalance/balancer.go:194-231 | While the candidates stay the same, any total-weight many consecutive selections short of the 64-bit counter's wrap-around pick each candidate as often as its weight says, once for a weight below one. |
| `Balancers.UnfairAtWrapAround` | internal/loadbalance/balancer.go:215-216 | With weights 1 and 2 one of two windows across the wrap-around of the 64-bit counter is unfair. |
| `Balancers.LeastConnections.Select` | internal/loadbalance/balancer.go:250-269 | The first of the healthy targets with the fewest connections, nobody when none is healthy; down, limits and backup are not looked at. |
| `Balancers.LeastConnections.SelectExcluding` | internal/loadbalance/balancer.go:487-523 | The first of the candidates with the fewest connections, found in one pass with separate minima for primaries and backups. |
| `Balancers.LeastLaw` | internal/loadbalance/balancer.go:250-269 | None of the list has fewer connections than the least loaded one, and all before it have more. |
| `Balancers.LeastHealthyLaw` | internal/loadbalance/balancer.go:250-269 | Selection without exclusion answers with a healthy target that no healthy one undercuts, and with nobody only when none is healthy. |
| `WeightedPicks.PickIndex` | internal/loadbalance/balancer.go:218-230 | Every position below the total falls in the stretch of exactly one target, between the sums of the shares before and including it. |
| `WeightedPicks.PickIff` | internal/loadbalance/balancer.go:218-230 | A target is picked exactly at the positions of its own stretch. |
| `WeightedPicks.ModIsRemainder` | internal/loadbalance/balancer.go:216-216 | The recursive remainder the counting argument uses is the language's remainder. |
| `WeightedPicks.WindowExact` | internal/loadbalance/balancer.go:194-231 | Every window of total-weight many counter values short of the wrap-around picks each target exactly its share of times, wherever it starts. |
| `WeightedPicks.UnfairWindow` | internal/loadbalance/balancer.go:215-216 | With two or more targets and a total weight that does not divide the counter's range, one of two windows at the wrap-around is unfair. |
| `WeightedPicks.FairAcrossWrapIff` | internal/loadbalance/balancer.go:194-231 | All windows, those across the wrap-around included, are exact if and only if the total weight divides the counter's range or there is one target. |
| `Failover.Proxy.ServeHTTP` | internal/proxy/proxy.go:645-1016 | For any choices of any balancer, repeated ones included, and any outcomes the loop ends with the response its attempts explain; every target's connection count is back at its entry value on every exit; every opening is followed at once by the closing of the same target. |
| `Failover.Proxy.TryTarget` | internal/proxy/proxy.go:671-1009 | One attempt decides what the branches say and gives back every connection it counted, the second counting after a fruitless cache wait included. |
| `Failover.ExplanationUnique` | internal/proxy/proxy.go:645-1016 | Choices and outcomes determine the attempts and the response: no two explanations of a request differ. |
| `Failover.AttemptsBounded` | internal/proxy/proxy.go:645-669 | Attempted URLs are pairwise distinct, and attempts exceed neither the tries nor the number of distinct URLs. |
| `FailoverLaws.ResponseLaw` | internal/proxy/proxy.go:929-945 | A response ends the request with its status and URL, unless the status is one to retry on and tries are left: then another target is asked for. |
| `FailoverLaws.ErrorLaw` | internal/proxy/proxy.go:861-898 | A transport error is answered from a usable stale entry, or another target is asked for. |
| `FailoverLaws.CacheLaw` | internal/proxy/proxy.go:766-841 | A cached answer before the first attempt, found at once or after waiting for another request, ends the request. |
| `FailoverLaws.EarlyExits` | internal/proxy/proxy.go:676-747 | A WebSocket ends the request with 101 or 502, a rejected path with 502; a target without a client is passed over. |
| `FailoverLaws.RedirectLaw` | internal/proxy/proxy.go:915-923 | An internal redirect ends the request, the status on record staying that of the latest earlier attempt that had a client. |
| `FailoverLaws.GiveUpLaw` | internal/proxy/proxy.go:1018-1035 | Without any target the answer is 502; a request given up answers for the latest transport error, 504 for a timeout and 502 otherwise, naming the target reached last, and 502 when there was no transport error. |
| `Failover.PolicyOf` | internal/proxy/proxy.go:630-638 | At least one try, and the status codes configured or 502 to 504. |
| `Failover.ExtendAttempts` | internal/proxy/proxy.go:645-669 | An attempt that was retried extends the explained run by one choice, and its error, address and status are noted. |
| `Failover.EndsRequest` | internal/proxy/proxy.go:645-1016 | An attempt that finishes the request explains the whole of it, an internal redirect keeping the status noted before. |
| `Failover.CandidatesAreHonest` | internal/proxy/target_selector.go:146-170 | A chooser that picks, from the second attempt on, among the candidates of the list without the attempted URLs never repeats one, whatever is available. |
| `Failover.RingIsHonest` | internal/proxy/target_selector.go:160-165 | Nor does one that takes the clockwise walk over a hash ring, whatever the ring, stopping at healthy URLs not attempted yet. |
| `FileCacheModel.LongestFitIsLongest` | internal/cache/file_cache.go:282-292 | Eviction keeps exactly the longest most-recent prefix with no more entries than the count limit and no more bytes than the byte limit, where limits are set. |
| `FileCacheModel.SetStores` | internal/cache/file_cache.go:181-220 | A file just stored stays exactly when it alone respects the byte limit; a larger one empties the cache, itself included. |
| `FileCacheLaws.SetLaw` | internal/cache/file_cache.go:181-220 | After storing, the path has exactly the data, size, times and type passed, replacing what it had; it is there, most recent, exactly if it respects the byte limit, and else the cache is empty. |
| `FileCacheLaws.ReadAfterSet` | internal/cache/file_cache.go:104-235 | Whatever happens to other paths afterwards, the path holds exactly the file stored, if it has not been evicted. |
| `FileCacheLaws.DeleteLaw` | internal/cache/file_cache.go:228-235 | A deletion removes the path, and does nothing for a path that is not stored. |
| `FileCacheLaws.RefreshLaw` | internal/cache/file_cache.go:243-252 | A refresh stamps caching and access time, a touch the access time only; the rest of the file stays, and it becomes the most recent. |
| `FileCacheLaws.IdleLaw` | internal/cache/file_cache.go:114-149 | A file last accessed longer ago than the limit is removed by expiring and by migrating; otherwise expiring does nothing and migrating refreshes. |
| `FileCacheLaws.AbsentLaw` | internal/cache/file_cache.go:104-252 | Nothing but storing acts on a path that is not stored. |
| `FileCacheModel.OthersUntouched` | internal/cache/file_cache.go:104-313 | A critical section touches the record of its own path only; only storing, by eviction, makes others disappear. |
| `FileCacheModel.StepKeeps` | internal/cache/file_cache.go:104-313 | Every critical section keeps paths distinct and the list ordered by last access. |
| `FileCacheModel.StepFits` | internal/cache/file_cache.go:104-313 | With non-negative sizes every critical section keeps both limits. |
| `FileCacheModel.RunKeeps` | internal/cache/file_cache.go:104-313 | So does every interleaving of critical sections, under a clock that does not go back. |
| `FileCacheModel.TotalWithout` | internal/cache/file_cache.go:261-264 | Removing an entry takes exactly its size off the total. |
| `FileCaches.FileCache.RemoveEntry` | internal/cache/file_cache.go:261-276 | Removes one entry from map, list and running size together, keeping them in step. |
| `FileCaches.FileCache.EvictLRU` | internal/cache/file_cache.go:298-313 | Drops exactly the least recently used entry, if any. |
| `FileCaches.FileCache.EvictIfNeeded` | internal/cache/file_cache.go:282-292 | Both eviction loops end and leave the longest prefix that fits. |
| `FileCaches.FileCache.Set` | internal/cache/file_cache.go:181-220 | Afterwards the cache is the longest prefix that fits of the stored file followed by what else it held. |
| `FileCaches.FileCache.Delete` | internal/cache/file_cache.go:228-235 | Removes exactly the given path. |
| `FileCaches.FileCache.RefreshCachedAt` | internal/cache/file_cache.go:243-252 | Restamps an entry and makes it the most recent; nothing for an unknown path. |
| `FileCaches.FileCache.GetRead` | internal/cache/file_cache.go:104-128 | The read-locked part tells apart missing, idle, not yet stamped and found. |
| `FileCaches.FileCache.GetExpire` | internal/cache/file_cache.go:114-123 | The locked removal looks again and removes only what is still idle. |
| `FileCaches.FileCache.GetMigrate` | internal/cache/file_cache.go:130-149 | The locked update of an entry without a caching time looks again, and stamps, or removes what has become idle. |
| `FileCaches.FileCache.GetTouch` | internal/cache/file_cache.go:151-160 | The locked recency update happens only if the entry read before is still stored. |
| `FileCaches.FileCache.Get` | internal/cache/file_cache.go:104-165 | What an uninterrupted lookup answers and leaves, case by case, the five-second interval between recency updates included. |
| `CacheLock.StepKeepsInv` | internal/cache/file_cache.go:501-581 | Every critical section and every end of a wait keeps: a channel is open exactly while it is its key's pending channel; no key has both entry and pending channel; nothing is closed twice; every call's channel was made for its key, and by one call. |
| `CacheLock.LockSafety` | internal/cache/file_cache.go:501-581 | Over every interleaving: no channel is closed twice, at most one per key is open, each was made for one call, every parked call's channel is closed or still its key's pending channel. |
| `CacheLock.EntriesLaw` | internal/cache/file_cache.go:501-669 | A store puts the entry under its key, deletions remove just their keys and leave the channels alone, and no other step changes an entry. |
| `CacheLock.DisabledLaw` | internal/cache/file_cache.go:529-571 | Switched off, the lock answers every call at once and does nothing else. |
| `CacheLock.WakesAllWaiters` | internal/cache/file_cache.go:515-520 | Storing an entry or releasing the lock closes the channel of every call parked for that key, waiting inside the call or holding the channel. |
| `CacheLock.SingleFlight` | internal/cache/file_cache.go:528-565 | From a pending channel on, until the key is stored or released: the channel stays, nobody is granted the lock or bypasses it, and every further caller told to go ahead had its wait time out or was parked on an older channel of the key. |
| `CacheLock.OvertakesIff` | internal/cache/file_cache.go:541-556 | A parked caller may go ahead before the key is stored or released if and only if it waits with a timer or was parked on an older channel. |
| `CacheLock.ArrivalGoesAheadIff` | internal/cache/file_cache.go:528-565 | An arriving caller may go ahead before the key is next stored or released if and only if the key is not pending (it is granted the lock, or bypasses it because there is an entry, expired or not) or it came with a timeout: only calls without a timeout keep the promise that one caller generates the response. |
| `CacheLock.WaitingGoesAhead` | internal/cache/file_cache.go:544-554 | After any run, a caller that waited with a timer still waits or goes ahead - woken or timed out - whatever has been stored: it is never served what it waited for. |
| `CacheLock.HandedGoesAheadIff` | internal/cache/file_cache.go:541-556 | After any run, a caller that was handed the channel has gone ahead if and only if some step of the run ended its wait, its channel closed, without a usable entry. |
| `CacheLock.HandedWaits` | internal/cache/file_cache.go:541-556 | While that channel is pending it only waits. |
| `CacheLock.TimeoutOvertakes` | internal/cache/file_cache.go:549-553 | A run in which the second caller goes ahead while the key is still pending. |
| `CacheLock.HerdAfterStore` | internal/cache/file_cache.go:546-549 | A run for every number of waiters in which all of them go ahead although the entry they waited for has been stored. |
| `CacheLock.Stampede` | internal/cache/file_cache.go:535-538 | With an entry present any number of callers in a row go ahead and the state does not change. |
| `CacheLock.ProxyCache.AcquireLock` | internal/cache/file_cache.go:528-565 | The locked part is the acquiring step: it answers at once, hands out the pending channel, or goes on to wait with a timer. |
| `CacheLock.ProxyCache.EndWait` | internal/cache/file_cache.go:544-554 | The rest of a call that waits: the answer is "timed out" exactly if the timer ended the wait, and the caller goes ahead either way. |
| `CacheLock.ProxyCache.Set` | internal/cache/file_cache.go:501-521 | Storing is the store step: entry replaced, pending channel closed and forgotten. |
| `CacheLock.ProxyCache.ReleaseLock` | internal/cache/file_cache.go:568-581 | Releasing is the release step; nothing when the lock is switched off. |
| `CacheLock.ProxyCache.Delete` | internal/cache/file_cache.go:645-650 | Deleting removes the entry and leaves a pending channel alone. |
| `CacheLock.ProxyCache.DeleteByPattern` | internal/cache/file_cache.go:655-669 | Deletes exactly the matching entries and counts them. |
| `UdpModel.CloseThese` | internal/stream/stream.go:907-930 | Closing some sessions changes just their open flags and their targets' counters, once each. |
| `UdpModel.StepKeepsInv` | internal/stream/stream.go:799-930 | Every critical section keeps: open sessions are exactly the map's values under their own client's key, counters are the numbers of open sessions. |
| `UdpModel.RunKeepsInv` | internal/stream/stream.go:799-1071 | That holds in every run, whichever goroutines take which steps. |
| `UdpModel.OneOpenPerClient` | internal/stream/stream.go:831-885 | At most one open session per client. |
| `UdpModel.ActivityLaw` | internal/stream/stream.go:799-848 | A session's activity time is set by lookups and creations for its client while it is the client's session and by its own traffic, and by nothing else. |
| `UdpModel.CreationLaw` | internal/stream/stream.go:838-885 | A session is made exactly for a client that has none and a target that was found: the client's, open, on that target, active now. |
| `UdpModel.CleanupExact` | internal/stream/stream.go:1056-1071 | Cleanup closes exactly the open sessions idle for the timeout or longer. |
| `UdpModel.CloseAllClears` | internal/stream/stream.go:907-915 | Stopping empties the map and returns every counter to zero. |
| `UdpModel.RemovalHitsOtherIff` | internal/stream/stream.go:893-902 | A session's own removal closes another open session if and only if the session is closed already and its client has a session again. |
| `UdpModel.StaleRemovalReachable` | internal/stream/stream.go:893-902 | A run that gets there: creation, cleanup, creation again, removal by the first session's goroutine. |
| `UdpModel.StaleRemovalClosesSuccessor` | internal/stream/stream.go:893-902 | Then the successor is closed and forgotten, and both sessions have given their connection back exactly once. |
| `UdpServers.UdpServer.GetSession` | internal/stream/stream.go:799-813 | Lookup refreshes the activity time of the session found, which is that of the client. |
| `UdpServers.UdpServer.CreateSession` | internal/stream/stream.go:838-885 | The locked part looks again before creating: it returns the session of the client, new or not, or nothing when no target was to be had. |
| `UdpServers.UdpServer.GetOrCreateSession` | internal/stream/stream.go:831-885 | Uninterrupted, an existing session is returned, otherwise one is created unless no target is to be had. |
| `UdpServers.UdpServer.CloseSession` | internal/stream/stream.go:921-930 | Closing twice gives the connection back once. |
| `UdpServers.UdpServer.RemoveSession` | internal/stream/stream.go:893-902 | Closes and forgets the client's current session, whoever asks. |
| `UdpServers.UdpServer.RetireSessions` | internal/stream/stream.go:1061-1070 | The loop retires exactly the given clients in whatever order the map is traversed. |
| `UdpServers.UdpServer.CloseSessions` | internal/stream/stream.go:907-915 | Closes all sessions and clears the map. |
| `UdpServers.UdpServer.CleanupExpiredSessions` | internal/stream/stream.go:1056-1071 | Retires exactly the idle clients. |
| `UdpServers.AllRetired` | internal/stream/stream.go:1061-1070 | Retiring clients one at a time, in any order, comes to the same state as retiring them at once. |
| `RadixModel.NoSplit` | internal/matcher/radix.go:138-219 | Called as the code calls it, insertion never reaches the node-split case. |
| `RadixModel.InsertFind` | internal/matcher/radix.go:114-219 | Insertion fails exactly on a registered path and otherwise changes what the descent finds at that path only. |
| `RadixModel.InsertRouted` | internal/matcher/radix.go:114-219 | Insertion keeps every stored path on its descent route. |
| `RadixModel.SiblingSegments` | internal/matcher/radix.go:162-178 | No earlier sibling's segment begins a later one's. |
| `RadixModel.TreeIsRegistry` | internal/matcher/radix.go:88-219 | After any insertion sequence the tree denotes exactly the map of first insertions, and the next insertion fails exactly when its path is in the map. |
| `RadixModel.EntryIsFound` | internal/matcher/radix.go:114-219 | Every node is found by the descent along its own full path. |
| `RadixModel.FoundIsEntry` | internal/matcher/radix.go:114-219 | What the descent finds is a node with that full path. |
| `RadixModel.EntriesDistinct` | internal/matcher/radix.go:114-219 | No two nodes have the same full path. |
| `RadixSearch.SearchIsFold` | internal/matcher/radix.go:242-273 | The recursive search, best-so-far and all, is the left fold over the nodes in pre-order that keeps the lowest priority, then the longest by the measure. |
| `RadixSearch.FoldWinner` | internal/matcher/radix.go:253-270 | The fold's answer is the match that beats all before it and is beaten by none after; nothing exactly when nothing matches. |
| `RadixSearch.SearchSound` | internal/matcher/radix.go:228-273 | For a non-empty request nothing is found exactly when no registered path begins it; otherwise the answer is a registered path that does, of the lowest priority among those. |
| `RadixSearch.PathSearchIsLongest` | internal/matcher/radix.go:221-273 | Comparing full paths, the answer would be the registered prefix of lowest priority and, among those, strictly longer than every other - the documented meaning. |
| `RadixSearch.OrderDoesNotMatter` | internal/matcher/radix.go:221-273 | That answer depends only on what is registered, not on the order of insertion. |
| `RadixSearch.FindsLongestIff` | internal/matcher/radix.go:242-273 | The search as written, comparing segments, gives the documented answer on every request if and only if the registered segments follow the registered paths: of a path and one that extends it at equal leading priority, the longer has the longer own segment, or as long a one reached first. |
| `RadixSearch.BrokenPairShows` | internal/matcher/radix.go:256-262 | A pair of registrations that breaks the condition shows on the request for the longer path itself. |
| `RadixSearch.NestedLocations` | internal/matcher/radix.go:256-262 | With "/api" and then "/api/v1" registered, every request below the second is answered by the first. |
| `RadixTrees.CommonPrefix` | internal/matcher/radix.go:138-143 | The shared-prefix loop returns the length of the longest common prefix. |
| `RadixTrees.RadixNode.Insert` | internal/matcher/radix.go:114-219 | In-place insertion over linked nodes is the insertion function on the subtree's value; on failure nothing changes. |
| `RadixTrees.RadixNode.SearchLongest` | internal/matcher/radix.go:242-273 | The search over linked nodes is the search function on the subtree's value. |
| `RadixTrees.RadixTree.Insert` | internal/matcher/radix.go:88-93 | Refused after initialization, otherwise refused exactly on a path inserted before; the tree stays that of its insertion log. |
| `RadixTrees.RadixTree.FindLongestPrefix` | internal/matcher/radix.go:228-240 | Answers the search over the tree of the insertion log. |
| `RadixTrees.RadixTree.MarkInitialized` | internal/matcher/radix.go:287-289 | Closes the tree to insertion. |
| `RadixTrees.TreeDenotesRegistry` | internal/matcher/radix.go:88-219 | For any insertion log the tree holds exactly the registry's paths and locations, each on its descent route. |
| `RadixTrees.SearchOverRegistry` | internal/matcher/radix.go:228-273 | For any insertion log and either measure the search answers from the registry: nothing exactly when no registered path begins the request, otherwise one that does, of the lowest priority. |
| `RadixTrees.EmptyRequest` | internal/matcher/radix.go:242-245 | An empty request finds nothing. |
| `TimerModel.StepKeepsInv` | internal/lua/api_timer.go:183-405 | Every step keeps: a timer is in the map exactly while it has neither been cancelled nor cleaned up; the active count is the timers under way; done channels are closed exactly for finished timers. |
| `TimerModel.TimersSafe` | internal/lua/api_timer.go:183-405 | Over every interleaving the active count is never negative and, while the map lock is free, is the number of timers that have not given it back; the only way to close a channel twice or send on a closed one is to shut the queue down twice. |
| `TimerModel.MayPanicIff` | internal/lua/api_timer.go:365-405 | From a state of a run, some continuation closes a closed channel or sends on one if and only if the stop flag is down or two Close calls have got past the check. |
| `TimerModel.ClosesApartIff` | internal/lua/api_timer.go:365-373 | A run keeps its Close calls apart - none gets past the check while another is between looking and raising the flag - exactly when at most one got past it. |
| `TimerModel.CloseIsSafeIff` | internal/lua/api_timer.go:365-405 | While Close calls are kept apart nothing panics; once the stop flag is up, a panic has come or may still come if and only if they were not. |
| `TimerModel.OverlappingClosesPanic` | internal/lua/api_timer.go:365-373 | Two Close calls that both look before either raises the flag close the queue twice. |
| `TimerModel.CloseAfterWaitAll` | internal/lua/api_timer.go:330-373 | Once WaitAll has raised the stop flag no later Close closes the queue. |
| `TimerModel.CancelledNeverEnqueues` | internal/lua/api_timer.go:228-266 | A timer whose cancellation completed before it fired never enqueues its callback. |
| `TimerModel.CancelTooLateIff` | internal/lua/api_timer.go:302-318 | After a Cancel that returned true the callback can still be enqueued if and only if the timer had already looked at its cancel channel, has a callback, and the queue is open, however full. |
| `TimerModel.CancelTooLateReachable` | internal/lua/api_timer.go:228-241 | A run that gets there: the timer looks at its cancel channel, is then cancelled with success, and enqueues its callback. |
| `TimerModel.WaitAllMissesIff` | internal/lua/api_timer.go:330-355 | With the stop flag up and an active count of zero - when WaitAll answers that all timers have finished - a timer can be running, then or later, if and only if an At call had already got past its look at the flag. |
| `TimerModel.WaitAllMissesReachable` | internal/lua/api_timer.go:183-190 | A run of an At call and WaitAll that gets there. |
| `TimerManagers.TimerManager.At` | internal/lua/api_timer.go:183-222 | Creates exactly one timer, in the map and counted, unless stopping or the callback captures variables. |
| `TimerManagers.CreationEffect` | internal/lua/api_timer.go:183-222 | A new timer is scheduled, not cancelled, in the map, and counted. |
| `TimerManagers.TimerManager.ExecuteTimer` | internal/lua/api_timer.go:228-266 | An uninterrupted firing is the sequence of its steps. |
| `TimerManagers.FiringEffect` | internal/lua/api_timer.go:228-266 | It finishes the timer, gives exactly one active count back, takes it off the map, and enqueues the callback exactly if there is one, it was not cancelled, and the queue is open and has room. |
| `TimerManagers.TimerManager.Cancel` | internal/lua/api_timer.go:302-318 | Returns true exactly when the timer was still in the map; then its cancel channel is closed and it leaves the map. |
| `TimerManagers.CancelEffect` | internal/lua/api_timer.go:302-346 | Cancelling a timer of the map closes its channel and takes it off the map, the count staying; cancelling all does so for every timer of the map and touches no other. |
| `TimerManagers.TimerManager.WaitAll` | internal/lua/api_timer.go:330-355 | Raises the stop flag; after a timeout closes every remaining cancel channel and empties the map. |
| `TimerManagers.CloseCancels` | internal/lua/api_timer.go:339-346 | The loop closes the cancel channels of exactly the timers in the map, in whatever order it is traversed. |
| `TimerManagers.TimerManager.Close` | internal/lua/api_timer.go:365-382 | Uninterrupted: nothing once the stop flag is up, otherwise the closing steps in a row. |
| `TimerManagers.ClosingEffect` | internal/lua/api_timer.go:365-394 | Those raise the flag and close the queue, panicking only if it was closed before. |
| `SharedDictModel.SweepIsMaximalTail` | internal/lua/shared_dict.go:330-365 | The sweep removes exactly the maximal all-expired tail of the recency list. |
| `SharedDictModel.FlushClearsAllIff` | internal/lua/shared_dict.go:291-302 | A flush leaves no expired slot behind if and only if no expired slot was used more recently than a live one. |
| `SharedDictModel.FlushLeavesExpired` | internal/lua/shared_dict.go:291-302 | A run of two stores and a flush that leaves an expired slot behind. |
| `SharedDictModel.MakeRoomRemovesLittle` | internal/lua/shared_dict.go:140-150 | Making room succeeds exactly when the capacity is positive; a full dictionary loses its expired tail or, without one, just the least recently used slot. |
| `SharedDictModel.StepKeepsInv` | internal/lua/shared_dict.go:88-397 | Every operation keeps keys distinct and the size within the capacity. |
| `SharedDictModel.RunKeepsInv` | internal/lua/shared_dict.go:88-397 | So does every run of operations at whatever instants. |
| `SharedDictModel.SlotStays` | internal/lua/shared_dict.go:88-302 | While a key stays stored only Set and Incr on that very key change its value, whatever is evicted, inserted or swept around it. |
| `SharedDictLaws.GetLaw` | internal/lua/shared_dict.go:88-109 | A stored key is reported expired if and only if it has a deadline that has passed, and is then gone; otherwise its value is returned and it becomes the most recent. |
| `SharedDictLaws.SetLaw` | internal/lua/shared_dict.go:123-168 | Setting succeeds exactly for a stored key or a positive capacity, and stores what was passed as the most recent, with a deadline exactly for a positive time to live. |
| `SharedDictLaws.AddLaw` | internal/lua/shared_dict.go:182-221 | Adding refuses a stored key, expired or not, and otherwise sets it. |
| `SharedDictLaws.IncrLaw` | internal/lua/shared_dict.go:231-270 | An increment writes the numeral it answers, keeps the deadline of a stored count and makes it the most recent; a count it creates has none. |
| `SharedDictLaws.RemovalLaw` | internal/lua/shared_dict.go:273-302 | Deleting removes the key, flushing all removes everything, and flushing the expired removes exactly the tail whose deadlines have passed and counts it. |
| `SharedDictLaws.ReadAfterSet` | internal/lua/shared_dict.go:88-168 | Whatever happens to other keys, a value that was set and stays stored is read back until its time to live is over, and from then on reported expired. |
| `Recency.WithoutLaw` | internal/lua/shared_dict.go:319-322 | Removing a key removes it and nothing else; the others keep their values and their order. |
| `SharedDictModel.CounterCounts` | internal/lua/shared_dict.go:231-270 | In any run of operations during which a count stays stored and is not overwritten, its increments are answered with the running sums, in 64 bits; once one is negative every further increment is refused and the value stays. |
| `SharedDictModel.TallyIsSums` | internal/lua/shared_dict.go:231-270 | As long as the sums stay within the non-negative 64-bit integers those answers are the exact running sums, whatever follows. |
| `SharedDictModel.LeavingRange` | internal/lua/shared_dict.go:256-266 | The next answer is still exact if and only if the sum fits, and the one after it is a refusal if and only if that sum is below zero or beyond 64 bits. |
| `SharedDictModel.FreshCounterCounts` | internal/lua/shared_dict.go:231-270 | A counter created by its first increment starts that from zero. |
| `Decimal.ParseDigits` | internal/lua/shared_dict.go:256-263 | Reading in 64 bits inverts writing on all non-negative 64-bit numbers. |
| `Decimal.DecimalNumerals` | internal/lua/shared_dict.go:411-415 | The numerals are the ordinary decimal ones. |
| `Decimal.NegativeNumeral` | internal/lua/shared_dict.go:405-419 | A negative number is written as a minus sign before its counterpart, the least 64-bit one as the sign alone. |
| `Decimal.WrappedSum` | internal/lua/shared_dict.go:265-265 | A 64-bit sum that does not fit comes out on the other side of zero. |
| `Decimal.NumeralRoundTrip` | internal/lua/shared_dict.go:256-266 | For every 64-bit number, reading what was written succeeds exactly for the non-negative ones, giving the number back. |
| `SharedDicts.ReverseInPlace` | internal/lua/shared_dict.go:421-424 | The in-place swap loop reverses the buffer. |
| `SharedDicts.ReversedAt` | internal/lua/shared_dict.go:421-424 | What reversal means, position by position. |
| `SharedDicts.DigitsBackwards` | internal/lua/shared_dict.go:411-415 | The digit loop produces the digits of a positive number, least significant first, and none otherwise. |
| `SharedDicts.IntToStr` | internal/lua/shared_dict.go:400-427 | Negation in 64 bits, digit loop, sign and reversal produce the numeral of any 64-bit number, the least one losing its digits. |
| `SharedDicts.ParseValue` | internal/lua/shared_dict.go:256-263 | The parsing loop reads the numeral in 64 bits, or refuses at a character that is no digit. |
| `SharedDicts.SharedDict.LastStored` | internal/lua/shared_dict.go:330-397 | The last key of the list is always in the map: the branches for inconsistent data never run. |
| `SharedDicts.SharedDict.EvictExpired` | internal/lua/shared_dict.go:330-365 | The sweeping loop removes exactly the expired tail and counts it. |
| `SharedDicts.SharedDict.EvictLRU` | internal/lua/shared_dict.go:371-397 | Removes exactly the least recently used slot; false exactly when the dictionary is empty. |
| `SharedDicts.SharedDict.Reserve` | internal/lua/shared_dict.go:140-150 | The shared capacity check makes room as specified, or reports failure having only swept. |
| `SharedDicts.SharedDict.Get` | internal/lua/shared_dict.go:88-109 | Answers the live value and promotes it, or removes and reports an expired one. |
| `SharedDicts.SharedDict.Set` | internal/lua/shared_dict.go:123-168 | Rewrites and promotes a stored key, otherwise inserts in front after making room. |
| `SharedDicts.SharedDict.Add` | internal/lua/shared_dict.go:182-221 | Refuses a stored key, expired or not, otherwise inserts as Set does. |
| `SharedDicts.SharedDict.Incr` | internal/lua/shared_dict.go:231-270 | Creates a missing key at zero after making room, then adds to the number held, refusing what is no numeral. |
| `SharedDicts.SharedDict.Delete` | internal/lua/shared_dict.go:273-281 | Removes exactly the key. |
| `SharedDicts.SharedDict.FlushAll` | internal/lua/shared_dict.go:284-291 | Empties map and list. |
| `SharedDicts.SharedDict.FlushExpired` | internal/lua/shared_dict.go:297-302 | Sweeps the expired tail and returns its length. |
| `SharedDicts.SharedDict.FreeSlots` | internal/lua/shared_dict.go:312-316 | The room left, never negative for a positive capacity. |
| `IncludeModel.FlatFileIff` | internal/config/config.go:168-241 | Flattening a file succeeds if and only if every include chain from it ends well: not too deep, every pattern matching something, everything matched readable and not an ancestor. |
| `IncludeModel.AllWellUnfold` | internal/config/config.go:168-241 | All is well below a chain exactly when its end is in order and all is well below each included file. |
| `IncludeModel.FlatFileIsListing` | internal/config/config.go:221-233 | On success the merging pass yields the flattened pre-order listing of the include tree. |
| `IncludeModel.FlattenedLists` | internal/config/config.go:221-240 | The flattened settings have the servers and the streams of all files in the listing's order, and no includes left. |
| `IncludeModel.NestedOrder` | internal/config/config.go:173-220 | In a root with two includes the first of which includes another file, the order is root, first, its include, second. |
| `IncludeModel.VariableFirstDefined` | internal/config/config.go:224-231 | Each variable has the value of its first definition in that listing. |
| `IncludeModel.LoadCorrect` | internal/config/config.go:131-164 | Loading a file succeeds exactly when every include chain from it ends well, and then gives the flattened listing. |
| `IncludeModel.NoFileRepeats` | internal/config/config.go:192-195 | On a chain all of whose parts end well no file repeats, and the depth is bounded. |
| `ConfigLoading.Config.Absorb` | internal/config/config.go:221-231 | Appends the lists and takes over only variables not set yet. |
| `ConfigLoading.AddMissing` | internal/config/config.go:223-231 | The loop over the map adds exactly the missing variables, in whatever order it is traversed. |
| `ConfigLoading.Loader.ProcessIncludes` | internal/config/config.go:168-241 | The nested loops succeed exactly when flattening does, leave the flattened configuration, and restore the visited set. |
| `ConfigLoading.Loader.IncludeMatch` | internal/config/config.go:187-234 | One matched path: an ancestor is refused, a directory skipped, a file flattened and absorbed. |
| `ConfigLoading.Loader.Load` | internal/config/config.go:131-155 | Loading gives the flattened form of a readable root, and nothing when the root cannot be read or its flattening fails. |
| `Ewma.FoldWithin` | internal/loadbalance/ewma.go:29-44 | Any run of samples, negative ones and the "nothing recorded" marker included, leaves the average between any bounds on the samples. |
| `Ewma.NoOverflow` | internal/loadbalance/ewma.go:39-39 | No intermediate value leaves 64 bits while samples stay below the largest duration over a thousand. |
| `Ewma.NearExact` | internal/loadbalance/ewma.go:39-39 | On positive samples the integer average is below the exact one by at most 3.33 units, however long the run. |
| `Ewma.FirstSample` | internal/loadbalance/ewma.go:33-36 | The first sample is the average. |
| `Ewma.FurtherSample` | internal/loadbalance/ewma.go:39-39 | Every further one counts three tenths against seven of the average so far, rounded towards zero. |
| `Ewma.MarkerDiffersIff` | internal/loadbalance/ewma.go:33-39 | Treating zero as "nothing recorded" differs from averaging exactly when the average is zero and the sample is not. |
| `Ewma.FixedIff` | internal/loadbalance/ewma.go:29-44 | A constant sample s leaves a positive average alone exactly in [s - 3, s]. |
| `Ewma.StepCloser` | internal/loadbalance/ewma.go:29-44 | One repetition strictly decreases an average above s, never overshoots, and otherwise reaches where it settles or comes closer to s. |
| `Ewma.Settles` | internal/loadbalance/ewma.go:29-44 | Repeating s drives any average to exactly s from above or from nothing, to s - 3 from further below, within as many steps as the distance. |
| `Ewma.AverageIsFold` | internal/loadbalance/ewma.go:29-44 | Over every interleaving of loads and swaps the average is the fold of the finished recorders' samples in their order of finishing, each counted once, and lies between their least and greatest. |
| `Ewma.RetryMeansProgress` | internal/loadbalance/ewma.go:31-43 | A compare-and-swap fails only if another recorder finished since the load. |
| `Ewma.EWMAStats.RecordAtomic` | internal/loadbalance/ewma.go:29-44 | The loop ends once the others pause, and its sample enters exactly once, after those recorded during the rounds it took. |
| `Ewma.EWMAStats.Record` | internal/loadbalance/ewma.go:23-27 | Both averages and the count take the sample. |
| `Ewma.EWMAStats.Reset` | internal/loadbalance/ewma.go:62-66 | Both averages and the count start afresh. |
| `EngineModel.StepKeepsInv` | internal/lua/engine.go:265-337 | Every step keeps: no interpreter state has two owners, pooled and lent states add up to the pool's size, the active count is that of the counted coroutines. |
| `EngineModel.EngineSafe` | internal/lua/engine.go:265-337 | Over every interleaving, with the initial size within the maximum: states have one owner, size stays within the maximum, live coroutines exceed neither limit, and are as many as the active count says whenever no call is under way. |
| `EngineModel.CreationRefused` | internal/lua/engine.go:265-278 | Uninterrupted, creation beyond the limit or with the pool exhausted leaves no trace. |
| `EngineModel.CreationGranted` | internal/lua/engine.go:265-298 | Otherwise the new coroutine owns the last pooled state, or the next one made. |
| `EngineModel.ReleaseEffect` | internal/lua/engine.go:309-337 | A release pools or closes the state and uncounts the coroutine. |
| `LuaEngines.LuaEngine.NewCoroutine` | internal/lua/engine.go:265-298 | The calls in place come to exactly the steps of one creation and answer with the state lent. |
| `LuaEngines.LuaEngine.ReleaseCoroutine` | internal/lua/engine.go:309-337 | The calls in place come to exactly the steps of one release. |
| `EngineModel.NeverCloses` | internal/lua/pool.go:103-121 | With an initial size within the maximum, Put's close branch never runs. |
| `EngineModel.ClosesIff` | internal/lua/pool.go:45-121 | A returned state can be closed if and only if the pool was created larger than its maximum and the coroutine limit admits anyone. |
| `LuaEngines.LStatePool.Get` | internal/lua/pool.go:69-94 | The last pooled state, a new one while fewer than the maximum exist, otherwise nothing; the bookkeeping follows. |
| `LuaEngines.LStatePool.Put` | internal/lua/pool.go:103-121 | Pooled, or closed and no longer counted when the pool is full. |
| `SessionTickets.ChunksOfEncode` | internal/ssl/session_tickets.go:303-308 | Cutting the saved bytes gives back any list of keys. |
| `SessionTickets.EncodeOfChunks` | internal/ssl/session_tickets.go:303-308 | Cutting arbitrary bytes loses exactly the incomplete chunk at the end. |
| `SessionTickets.LoadOfSave` | internal/ssl/session_tickets.go:292-345 | Loading what was saved gives the newest keys the loader retains, all of them when they fit; nothing from an empty list. |
| `SessionTickets.LoadIsLastChunks` | internal/ssl/session_tickets.go:292-321 | On arbitrary data loading gives the last whole chunks, as many as are retained, and fails exactly when there is not one. |
| `SessionTickets.ChunkAt` | internal/ssl/session_tickets.go:304-308 | Chunk k is bytes 32 k to 32 k + 32 of the file. |
| `SessionTickets.RotationsAreNewest` | internal/ssl/session_tickets.go:188-214 | From any list that fits, rotations (failed ones in between) leave the newest of everything held or generated. |
| `SessionTickets.WindowFromOneKey` | internal/ssl/session_tickets.go:188-214 | From one key, n rotations leave the last min(n + 1, retained) generated keys in order. |
| `SessionTickets.SurvivesIff` | internal/ssl/session_tickets.go:198-204 | The key at a position survives a number of rotations if and only if it is at most the free places plus the keys before it. |
| `SessionTickets.FirstKey` | internal/ssl/session_tickets.go:188-214 | In the manager's list: the first key is the newest if and only if it is the only one; it stays for as many rotations as there are free places, in a full list for none, the newest for one fewer than are retained. |
| `SessionTickets.HandedOverIff` | internal/ssl/session_tickets.go:216-238 | The first key handed over is the manager's newest if and only if it was the only one and no rotation has succeeded since; the keys handed over are the manager's if and only if none has succeeded. |
| `SessionTickets.SessionTicketManager.GetKeys` | internal/ssl/session_tickets.go:168-179 | The copy has the keys in the order of the list. |
| `SessionTickets.SessionTicketManager.ApplyToTLSConfig` | internal/ssl/session_tickets.go:222-238 | The TLS configuration gets the keys in the order of the list, the oldest first. |
| `SessionTickets.SessionTicketManager.LoadOrGenerate` | internal/ssl/session_tickets.go:271-284 | The first keys come from a readable, long enough file, otherwise from one generated key; when that fails so does the start. |
| `SessionTickets.SessionTicketManager.ReadChunks` | internal/ssl/session_tickets.go:303-308 | The chunking loop reads exactly the whole chunks. |
| `SessionTickets.SessionTicketManager.LoadKeys` | internal/ssl/session_tickets.go:292-321 | Loads the newest retained chunks, or fails leaving the list as it was. |
| `SessionTickets.SessionTicketManager.SaveKeys` | internal/ssl/session_tickets.go:330-345 | The file becomes the keys one after the other, or what a failed write leaves. |
| `SessionTickets.SessionTicketManager.RotateKey` | internal/ssl/session_tickets.go:188-214 | One rotation of the window; the file becomes its image if there is one and the write succeeds, and a failed write does not fail the rotation. |
| `SessionTickets.Restart` | internal/ssl/session_tickets.go:271-345 | A manager restarted on the file of one that had saved its keys has the same keys, or with another retention the newest of them. |
| `SessionTickets.ApplyAndRotate` | internal/ssl/ssl.go:150-158 | The keys are applied to the configuration once, before the rotations: afterwards the manager holds the rotated list and the configuration still the first one. |

## Left out

- Network and file-system work, TLS, signals, process upgrade: outcomes are parameters (attempt outcomes, what a failed write leaves, whether a file can be read).
- The hash function: any total function from strings to naturals; statements that need distinct hashes say so.
- FileCaches.FileCache.GetTouch: whether the entry read before is still the one stored is an arbitrary boolean, because entries are values here; clearing a removed entry in place and reusing its memory, and so the aliasing with callers that still hold it, is not modelled.
- FileCaches.FileCache.Get: one instant for the read-locked part and one for the rest, without the unlocked read of the access time racing with other writers.
- ETag computation and the cache statistics counters: computed beside the modelled state, never read by it.
- CacheLock.ProxyCache.EndWait: a timer is not tied to a clock, it may end a wait at any point; that a request always releases the lock is not claimed, since the retry loop has exits that do not release it.
- ProxyCache.Get, GetStale, RefreshTTL, SetValidationHeaders: reads and field updates of stored entries, which the lock never looks at.
- UdpServers.UdpServer.CreateSession: choosing a target and dialling it are one parameter; sessions are named by their order of creation, so updating a session object in place is an update of a table.
- Failover.Proxy.ServeHTTP: the target list does not change during a request; health marks, success and failure records, header rewriting, and storing the response are not part of the loop's state.
- Failover.AttemptsBounded: rests on the balancer's promise not to repeat an attempted URL; it is proved for the filtering balancers and the hash ring (Failover.CandidatesAreHonest, Failover.RingIsHonest), while random choice of two, IP hash, least time, sticky sessions and Lua selection are arbitrary choices here.
- Failover.RingIsHonest: a target of an older ring counts as the list's target with the same URL.
- Balancers.LeastConnections.SelectExcluding: all connection counts are read at one instant, as is the availability of all targets.
- RoundRobin.Select and WeightedRoundRobin.Select: the selections with nothing excluded; the stream balancer in internal/stream/stream.go is the same weighted algorithm.
- Slow start, PrecomputeHashes, DNS refresh of targets: not used by the selections modelled.
- RadixTrees.RadixTree.FindLongestPrefix: the answer also names the full path of the node found, which the code does not return; the code's result path is the node's own segment.
- TimerManagers.TimerManager.WaitAll: the polling is a parameter that says how the waiting ended; delays, callback arguments and running the callback are not modelled. Cancelling does not stop the underlying timer, which then fires and is skipped.
- EngineModel.EngineSafe: after shutdown, and for a coroutine released twice, nothing is claimed; statistics counters and the 32-bit width of the active count are not modelled.
- Ewma.EWMAStats.RecordAtomic: what other recorders do between load and swap is given round by round; their number being finite is what makes the loop end. Resetting the statistics while recorders run is not part of the interleaving theorem.
- ConfigLoading.Loader.Load: default values, environment expansion, YAML and validation; an included file is given by its settings, a glob pattern by the paths it matches.
- SessionTickets.SessionTicketManager.RotateKey: the rotation timer and its start and stop.
- SessionTickets.SessionTicketManager.ApplyToTLSConfig: only the order of the keys handed over; which of them TLS uses is its own affair.
- Object pools are fresh allocation.
- The other LRU caches, the goroutine pool, header rewriting, status pages, configuration structs and MIME tables: easy members or limits that concurrency does not keep.
