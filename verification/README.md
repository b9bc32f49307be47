# Verified models of the nowp node

This project models, in Dafny, the parts of the node whose correctness is hardest to see from
the code, and proves what each part is for. `dafny verify dfyconfig.toml` covers the whole project.

- **Coin caches** (`Coins`, `CoinsRuns`, `CoinsViewCache`): stacks of caches over a store. A run of
  operations at any level behaves like one map; the FRESH and DIRTY flags stay truthful.
- **Check queue** (`CheckQueue`, `CheckQueueSafety`, `CheckQueueObject`): a state machine over the
  critical sections of the worker loop, for any number of workers and every interleaving.
- **Address manager** (`AddrMan*`): six cross-indexed structures, their agreement over every run,
  what each operation does to slots and times, the consistency check, and saving and loading.
- **Cuckoo cache** (`BitFlags`, `CuckooCache`, `CuckooObject`): eviction chains, conservation,
  placement and the bound on recent entries.
- **Block index** (`Bits`, `BlockChain`): skip pointers, the active chain, forks and locators.
- **Multi-limb integers and targets** (`Limbs`, `LimbShifts`, `BaseUint`, `Compact`): arithmetic of
  any width, the compact format and the block trust.
- **Compact blocks** (`Differences`, `CompactBlocks`, `CompactBlockObject`, `CompactBlockRelay`):
  reconstruction of a relayed block (BIP 152).
- **Bech32 and Base58** (`Bech32Code`, `Bech32Field`, `Bech32Distance`, `Bech32`, `Radix`, `Base58`):
  checksums, the distance of the code over GF(1024), buffer sizes and both directions of each round
  trip (BIP 173, BIP 350).

Code that changes state in the source is a class or a method with loops here; it is proved equal
to a function on values, and the theorems are about those functions. `Common` and `Arithmetic` hold
shared helpers.

Values that the source takes from elsewhere are parameters: hash functions and their keys (as
arbitrary functions, with range facts only where the source guarantees them), the clock, random
draws, the walk order of hash maps and sets, the bucket sizes of a hash map, the verdict of the
block check, the memory pool as a list, and the depth limit of the cuckoo cache.

Where the code does not meet what its documentation suggests, the code is followed and the exact
condition is proved: `Coins.AddCoherent` and `CoinsRuns.AddThenSpend` (adding over an unspent coin
that is not cached), `Coins.FlushBestBlock` (flushing a cache that has no best block of its own),
`CoinsRuns.FlushAbortsAt` (the store asserts that the hash is not null), `CoinsRuns.ChangeBelow`
(changes below a caching level), `BitFlags.EnoughBytes` and `CuckooCache.EpochSizeExact` (32-bit
wrap-around in sizes). `CoinsRuns.SpentCoinReturns`, `Coins.BestBlockLost` and
`CoinsRuns.SpendBelowUnseen` are concrete failing stacks. By `CuckooCache.NextLoc` an eviction
chain starts at the second position of an element, where the comment in the source says the first.

## Model

| member | source | states |
|---|---|---|
| `Coins.FetchKeeps` | src/coins.cpp:41-65 | Reading a coin through any number of cache levels changes no visible coin, keeps every flag truthful, and the entry it leaves shows exactly what was visible |
| `Coins.AddShows` | src/coins.cpp:67-106 | Adding a coin changes the visible coin at its outpoint and nothing else; unspendable and (on request) zero-value outputs are skipped |
| `Coins.AddCoherent` | src/coins.cpp:67-106 | AddCoin keeps the flags truthful if and only if it is skipped, an overwrite is announced, the entry is dirty, or the level below shows no coin |
| `Coins.AddWhereNothingShows` | src/coins.cpp:67-106 | A caller who adds only where nothing is visible (or announces an overwrite) never meets the exception and keeps the flags truthful |
| `Coins.SpendKeeps` | src/coins.cpp:127-147 | Spending hides exactly one coin and keeps the flags truthful |
| `Coins.UncacheKeeps` | src/coins.cpp:243-256 | Dropping a clean entry changes no visible coin |
| `Coins.FetchLeaves` | src/coins.cpp:41-56 | A read leaves a clean entry, FRESH exactly when it is spent, and touches no other entry of its level |
| `Coins.SpendLeaves` | src/coins.cpp:127-147 | A FRESH entry is spent without a trace; any other leaves a spent entry to be written back |
| `Coins.UncacheLeaves` | src/coins.cpp:243-256 | Uncaching drops the entry exactly when it need not be written back |
| `Coins.MergeLeaves` | src/coins.cpp:184-228 | A dirty entry passed down stays unless it is spent and the level below knows nothing of it, and FRESH stays with it |
| `Coins.MergeEntryKeeps` | src/coins.h:113-152 | Merging one child entry into a parent entry lands in a legal flag state, is truthful towards the grandparent, shows the child's coin, and never misapplies FRESH |
| `Coins.BatchWriteKeeps` | src/coins.cpp:180-234 | Unless the store refuses the hash, BatchWrite makes the parent show the child's coins and leaves the rest; the misapplied-FRESH exception cannot be reached |
| `Coins.FlushKeeps` | src/coins.cpp:236-241 | Unless it aborts, Flush never throws, changes no visible coin, empties its level and moves the whole view down |
| `Coins.BestBlockIsNearest` | src/coins.cpp:170-174 | The best block is the own hash of the nearest level that has one |
| `Coins.FlushBestBlock` | src/coins.cpp:170-241 | A flush that does not abort keeps the visible best block if and only if the cache has a hash of its own, the level below has none, or the nearest hash below that level is the same |
| `Coins.BestBlockLost` | src/coins.cpp:236-241 | A concrete stack whose best block changes when a cache without a hash of its own is flushed |
| `Coins.FlushAfterBestBlock` | src/coins.cpp:170-241 | Asking for the best block first prevents both: the flush then neither aborts nor changes it |
| `Coins.FetchBestKeeps` | src/coins.cpp:170-174 | Fetching the best block changes neither it nor any visible coin |
| `CoinsRuns.ReplaceUnseen` | src/coins.cpp:25-33 | A level of a stack may be exchanged for any truthful level that shows the same coins without anybody above noticing |
| `CoinsRuns.FlushAnywhere` | src/coins.cpp:236-241 | Flushing any level of a stack leaves the visible coins of that level and of every level above unchanged |
| `CoinsRuns.FlushAbortsAt` | src/txdb.cpp:106-112 | A flush meets the assertion of the store if and only if the level is the lowest cache and has no hash of its own |
| `CoinsRuns.ChangeBelow` | src/coins.cpp:41-56 | A coin changed below the top becomes visible at the top exactly when no level above has an entry for it, and the flags stay truthful exactly when the nearest such entry is legal over the new coin |
| `CoinsRuns.SpendBelowUnseen` | src/coins.cpp:41-147 | A concrete stack in which a coin spent below a caching level is still visible at the top, with untruthful flags |
| `CoinsRuns.AddRefines` | src/coins.cpp:67-106 | AddCoin at any level, where no level above has an entry, updates the one map at its outpoint, does not throw and keeps the flags truthful |
| `CoinsRuns.SpendRefines` | src/coins.cpp:127-147 | SpendCoin at any level, where no level above has an entry, removes the coin from the one map and keeps the flags truthful |
| `CoinsRuns.StepRefines` | src/coins.cpp:41-256 | Every permitted operation acts like the same operation on one plain map: adds and spends at any depth where no level above has an entry, reads, uncaches, pushes, and flushes at any depth that do not meet the assertion of the store |
| `CoinsRuns.RunRefinesMap` | src/coins.cpp:41-256 | Every run of such operations, over a stack of any depth, answers like a plain map, never throws and keeps the flags truthful |
| `CoinsRuns.FreshStack` | src/coins.cpp:25-35 | A bare store is a truthful stack, so runs may start there |
| `CoinsRuns.AddThenSpend` | src/coins.cpp:67-147 | A coin that was added and then spent is gone if and only if the add was announced as an overwrite, met a dirty entry, or hid no coin below |
| `CoinsRuns.SpentCoinReturns` | src/coins.cpp:67-147 | A concrete view in which an added and spent coin is visible again, because the add hid an unspent coin below |
| `CoinsViewCache.CoinsView.constructor` | src/coins.cpp:35-35 | A cache over another view starts empty |
| `CoinsViewCache.CoinsView.FetchCoin` | src/coins.cpp:41-56 | The recursive fetch is the model's Fetch and reports whether an entry is there |
| `CoinsViewCache.CoinsView.GetCoin` | src/coins.cpp:58-65 | Returns exactly the visible coin |
| `CoinsViewCache.CoinsView.HaveCoin` | src/coins.cpp:160-163 | True exactly when a coin is visible |
| `CoinsViewCache.CoinsView.AccessCoin` | src/coins.cpp:151-158 | The visible coin, or an empty one |
| `CoinsViewCache.CoinsView.HaveCoinInCache` | src/coins.cpp:165-168 | True exactly for an unspent entry of this level, and nothing changes |
| `CoinsViewCache.CoinsView.AddCoin` | src/coins.cpp:67-106 | Carries out the model's AddCoin, or throws without a change to visible coins exactly when the model says so |
| `CoinsViewCache.CoinsView.SpendCoin` | src/coins.cpp:127-147 | Carries out the model's SpendCoin and hands out the coin |
| `CoinsViewCache.CoinsView.MergeOne` | src/coins.cpp:184-228 | One entry of BatchWrite, on the parent's map |
| `CoinsViewCache.CoinsView.WriteToCache` | src/coins.cpp:180-234 | The erasing loop of BatchWrite equals merging all entries at once, or throws exactly when some entry is misapplied, with some entries merged and erased and the others untouched |
| `CoinsViewCache.CoinsView.WriteToStore` | src/txdb.cpp:131-141 | The loop of the store writes exactly the dirty entries: unspent coins in, spent ones out |
| `CoinsViewCache.CoinsView.BatchWrite` | src/coins.cpp:180-234 | Carries out the model's BatchWrite on a cache or on the store; aborts exactly on a store with a null hash, throws exactly on a misapplied entry, and states what is left in each case |
| `CoinsViewCache.CoinsView.Flush` | src/coins.cpp:236-241 | Carries out the model's Flush, after which this level is empty; aborts exactly above a store without a hash of its own, and after a throw still holds what was not merged |
| `CoinsViewCache.CoinsView.Uncache` | src/coins.cpp:243-256 | Carries out the model's Uncache |
| `CoinsViewCache.CoinsView.GetBestBlock` | src/coins.cpp:170-174 | Returns the best block of the nearest level that knows one, remembering it |
| `CoinsViewCache.CoinsView.SetBestBlock` | src/coins.cpp:176-178 | Sets this level's best block and nothing else |
| `CheckQueue.TakenFrom` | src/checkqueue.h:113-120 | A batch has the decided size and, together with what stays, is exactly the old queue |
| `CheckQueue.BatchIsLargest` | src/checkqueue.h:108-113 | The batch is the largest within the limit that all threads in the loop, the idle ones again and one more could take alike, and at least one check |
| `CheckQueueSafety.NextKeeps` | src/checkqueue.h:69-188 | Every step of every thread keeps the invariant: counters exact, checks conserved, failures recorded, no lost wakeup, truthful answers |
| `CheckQueueSafety.EveryRun` | src/checkqueue.h:69-188 | In every state of every interleaving with any number of workers the invariant holds, a sleeping, un-notified master has a worker still at work, and with checks in the queue and no notification under way some worker is not asleep un-notified |
| `CheckQueueSafety.NotifyWakes` | src/checkqueue.h:183-187 | The notification for several checks leaves no worker asleep un-notified; that for one check wakes the waiting worker picked and no other |
| `CheckQueueSafety.NextWoken` | src/checkqueue.h:69-188 | Every step keeps the workers woken: no wakeup of a worker is lost |
| `CheckQueueSafety.WorkerProceeds` | src/checkqueue.h:69-188 | Whenever checks are queued and no notification is under way, some worker has a step to make |
| `CheckQueueSafety.ReturnKeeps` | src/checkqueue.h:91-99 | When the master returns, its answer is whether every check added since the last Wait passes |
| `CheckQueueSafety.AtWork` | src/checkqueue.h:80-103 | A blocked master without a notification implies an empty queue, work outstanding and a worker holding an unfinished batch |
| `CheckQueueSafety.Progress` | src/checkqueue.h:69-130 | While the master is inside Add or Wait, some step that is neither a new call nor a spurious wakeup is possible |
| `CheckQueueSafety.Descent` | src/checkqueue.h:69-130 | Each such step strictly lowers a rank |
| `CheckQueueSafety.WaitReturns` | src/checkqueue.h:162-165 | No schedule of such steps is longer than the rank, and one that has ended finds the master outside: Wait returns |
| `CheckQueueObject.Queue.Add` | src/checkqueue.h:168-188 | Appends the checks, counts them, and sends the notification of the protocol: to nobody, one worker or all |
| `CheckQueueObject.Queue.FinishRound` | src/checkqueue.h:80-89 | The clean-up of the previous round, and whether the master must be told |
| `CheckQueueObject.Queue.PopBack` | src/checkqueue.h:114-120 | Taking jobs from the back one at a time gives the model's batch |
| `CheckQueueObject.Queue.TakeBatch` | src/checkqueue.h:108-122 | Takes the decided batch and the current status |
| `CheckQueueObject.Queue.RunBatch` | src/checkqueue.h:125-128 | The status after a batch is true exactly when it was true and every check passes |
| `AddrManOps.MakeTriedKeeps` | src/addrman.cpp:487-540 | Moving an entry to tried keeps all structures in agreement; an evicted entry returns to new |
| `AddrManOps.AddSingleKeeps` | src/addrman.cpp:542-615 | AddSingle keeps the invariant and empties no tried slot |
| `AddrManOps.GoodKeeps` | src/addrman.cpp:617-669 | Good_ keeps the invariant, including that a queued collision waits for an occupied slot |
| `AddrManOps.ResolveAllKeeps` | src/addrman.cpp:844-903 | ResolveCollisions_ keeps the invariant in whatever order the set is walked and whatever the clock says at each of its readings |
| `AddrManOps.QueuedCollision` | src/addrman.cpp:905-931 | A queued id that is still known has an occupied tried slot held by another entry, so SelectTriedCollision_ never looks up -1 and the branch for a vanished collision is dead |
| `AddrManOps.SelectTriedCollisionKeeps` | src/addrman.cpp:905-931 | SelectTriedCollision_ keeps the invariant |
| `AddrManOps.StatisticsKeep` | src/addrman.cpp:683-842 | Attempt_, Connected_ and SetServices_ keep the invariant |
| `AddrManOps.GetAddrKeeps` | src/addrman.cpp:772-808 | GetAddr_ keeps the invariant and changes no entry; it returns no terrible or unwanted entry and no address twice, and misses none unless the limit stops it |
| `AddrManOps.GetAddrComplete` | src/addrman.cpp:772-808 | Without a limit, or when fewer than the limit come back, GetAddr_ returns every good wanted entry exactly once; in any case at most the limit and nothing else |
| `AddrManInvariant.DeleteKeeps` | src/addrman.cpp:453-467 | Delete keeps the bijection of vRandom, the inverse of mapAddr and the counts |
| `AddrManInvariant.SwapRandomKeeps` | src/addrman.cpp:429-451 | SwapRandom keeps all structures in agreement |
| `AddrManSteps.ClearNewKeeps` | src/addrman.cpp:469-485 | ClearNew frees the slot and deletes an entry exactly when its last reference goes |
| `AddrManSteps.EvictTriedKeeps` | src/addrman.cpp:505-530 | The eviction inside MakeTried keeps the agreement and rehouses the evicted entry in new |
| `AddrManRuns.StepKeeps` | src/addrman.cpp:415-931 | Every public operation keeps the whole invariant |
| `AddrManRuns.EveryRun` | src/addrman.cpp:415-931 | After every run of operations on a fresh manager vRandom and nRandomPos are inverse, mapAddr inverts mapInfo, reference counts equal slot counts, each tried entry sits in its own slot, nNew and nTried are exact, and at most ten collisions wait |
| `AddrManRuns.TriedSlotsStay` | src/addrman.cpp:487-540 | Over every run an occupied tried slot stays occupied and ids are never reused |
| `AddrManRuns.AddSingleAnswer` | src/addrman.cpp:542-615 | AddSingle answers true exactly when the slot selected by the source newly holds the address |
| `AddrManEffects.MakeTriedEffect` | src/addrman.cpp:487-540 | The entry holds its tried slot and no new slot; a former holder has exactly the new slot of its own source; no entry says anything else than before, and the only one that can vanish is the one displaced there |
| `AddrManEffects.EvictTriedEffect` | src/addrman.cpp:505-530 | The evicted entry leaves its tried slot for the new slot of its own source |
| `AddrManEffects.GoodEffect` | src/addrman.cpp:617-669 | Good_ sets the times and attempts of its entry and of no other; the entry moves into its tried slot exactly if it is not in tried and the slot is free or need not be tested, else it is queued if fewer than ten wait |
| `AddrManEffects.ResolveOneEffect` | src/addrman.cpp:849-901 | A queued entry gives up against a holder that succeeded within four hours; else it replaces one tried within four hours but not the last minute, or after forty minutes one not tried; else nothing changes |
| `AddrManEffects.ResolveSpares` | src/addrman.cpp:844-903 | However the queue is walked, an entry that succeeded less than four hours before every reading keeps its tried slot |
| `AddrManEffects.PlaceNewEffect` | src/addrman.cpp:589-614 | A slot is given exactly if it is free, held by a terrible entry, or held by one with other slots when the newcomer has none; a newcomer without a slot is dropped |
| `AddrManEffects.AddSingleEffect` | src/addrman.cpp:542-615 | When an announcement adds a reference, what entry an unknown address gets, how time and services of a known one change, and that nothing else does |
| `AddrManEffects.AttemptEffect` | src/addrman.cpp:683-701 | An attempt sets the time; a failure counts only if none was counted since a peer last proved good |
| `AddrManEffects.OneFailureCounts` | src/addrman.cpp:683-701 | However often an address is tried, one failure counts until a peer proves good again |
| `AddrManEffects.ConnectedEffect` | src/addrman.cpp:810-826 | A connection moves the time of its entry on, at most every twenty minutes, and changes nothing else |
| `AddrManEffects.SetServicesEffect` | src/addrman.cpp:828-842 | The services of the one entry are set |
| `AddrManEffects.SelectTriedCollisionEffect` | src/addrman.cpp:905-931 | The entry handed out is the holder of the tried slot the queued id waits for; an id no longer known leaves the queue |
| `AddrManEffects.TerribleIff` | src/addrman.cpp:67-86 | When an entry is terrible, in seconds and counts |
| `AddrManEffects.AddrLimitIs` | src/addrman.cpp:776-782 | The limit is the smaller of the percentage, rounded down, and the number, each only if given |
| `AddrManEffects.GetAddrDraws` | src/addrman.cpp:772-808 | Ids are drawn without replacement, each by its own random number among those left, and the addresses on offer come back in the order drawn |
| `AddrManObject.AddrManImpl.constructor` | src/addrman.cpp:101-117 | A new manager is the empty one |
| `AddrManObject.AddrManImpl.Find` | src/addrman.cpp:400-413 | Finds the id of an address exactly when it is known |
| `AddrManObject.AddrManImpl.Create` | src/addrman.cpp:415-427 | Creates an entry at the end of vRandom under the next id |
| `AddrManObject.AddrManImpl.SwapRandom` | src/addrman.cpp:429-451 | In-place swap, equal to the model's |
| `AddrManObject.AddrManImpl.Delete` | src/addrman.cpp:453-467 | Its assertions hold and it equals the model's Delete |
| `AddrManObject.AddrManImpl.ClearNew` | src/addrman.cpp:469-485 | Its assertion holds and it equals the model's ClearNew |
| `AddrManObject.AddrManImpl.LeaveNew` | src/addrman.cpp:487-503 | The scan of all new buckets from any start, stopping when no reference is left, removes the entry from exactly its slots |
| `AddrManObject.AddrManImpl.EvictTried` | src/addrman.cpp:505-530 | The eviction, on the two tables |
| `AddrManObject.AddrManImpl.MakeTried` | src/addrman.cpp:487-540 | All five assertions hold and the result is the model's |
| `AddrManObject.AddrManImpl.Good` | src/addrman.cpp:617-669 | Equals the model's Good_, answer included |
| `AddrManObject.AddrManImpl.AddSingle` | src/addrman.cpp:542-615 | Equals the model's AddSingle, with the stochastic test factor computed by its loop |
| `AddrManObject.AddrManImpl.Add` | src/addrman.cpp:671-681 | Adding a list is adding its members in order; true exactly if one was added |
| `AddrManObject.AddrManImpl.Attempt` | src/addrman.cpp:683-701 | Equals the model's Attempt_ |
| `AddrManObject.AddrManImpl.Connected` | src/addrman.cpp:810-826 | Equals the model's Connected_ |
| `AddrManObject.AddrManImpl.SetServices` | src/addrman.cpp:828-842 | Equals the model's SetServices_ |
| `AddrManObject.AddrManImpl.ResolveOne` | src/addrman.cpp:849-901 | What happens to one queued id, with a clock reading for each test |
| `AddrManObject.AddrManImpl.ResolveCollisions` | src/addrman.cpp:844-903 | The walk over the set while erasing from it equals resolving each queued id once |
| `AddrManObject.AddrManImpl.SelectTriedCollision` | src/addrman.cpp:905-931 | Never reads an empty slot; a live pick yields a tried entry, an empty queue yields nothing |
| `AddrManObject.AddrManImpl.GetAddr` | src/addrman.cpp:772-808 | The in-place shuffle equals the model's |
| `AddrManCheck.CheckedDeclared` | src/addrman.cpp:971-1057 | What the consistency check tests is equivalent to a declarative invariant with slot counts, uniqueness, positions and the vRandom bijection |
| `AddrManCheck.CheckAddrman` | src/addrman.cpp:971-1057 | Returns 0 exactly when that invariant holds |
| `AddrManCheck.CheckEntries` | src/addrman.cpp:984-1010 | The scan of mapInfo |
| `AddrManCheck.CheckTriedTable` | src/addrman.cpp:1017-1032 | The scan of the tried buckets, by crossing off ids |
| `AddrManCheck.CheckNewTable` | src/addrman.cpp:1034-1047 | The scan of the new buckets, by counting references down |
| `AddrManCheck.StaleKeyUnnoticed` | src/addrman.cpp:971-1057 | An extra mapAddr key is not detected |
| `AddrManCheck.SoundIsDeclared` | src/addrman.cpp:956-969 | In every reachable state with a key the consistency check passes |
| `AddrManRoundTrip.RoundTrip` | src/addrman.cpp:126-398 | Loading what was saved gives a consistent manager with the same addresses, data, new slots and tried slots, ids renumbered |
| `AddrManRoundTrip.FlipBit30Twice` | src/addrman.cpp:126-398 | The bucket-count mark applied when writing is undone when reading |
| `AddrManFile.Serialize` | src/addrman.cpp:126-226 | Writing computes the model's record |
| `AddrManFile.Unserialize` | src/addrman.cpp:229-398 | Reading any record, good or bad, has the model's outcome |
| `AddrManFile.SaveAndLoad` | src/addrman.cpp:126-398 | A fresh object that reads what another wrote ends up with the same manager up to ids |
| `AddrManRebucket.TriedRead` | src/addrman.cpp:290-309 | Whatever is read, each tried slot goes to the first saved entry with a valid address that belongs there, and the others are counted as lost |
| `AddrManRebucket.PlaceAllListed` | src/addrman.cpp:345-375 | Without restored buckets each new slot goes to the first listed entry whose own source selects it |
| `AddrManRebucket.PruneEffect` | src/addrman.cpp:377-387 | Pruning deletes exactly the entries without a reference |
| `AddrManRebucket.RebucketedLoad` | src/addrman.cpp:290-387 | A file read under another asmap or bucket count: which entries survive, and in which slots |
| `BitFlags.BitsOfByte` | src/cuckoocache.h:92-117 | Setting and clearing a bit of a byte changes that bit only |
| `BitFlags.EnoughBytes` | src/cuckoocache.h:62-71 | The byte count covers all flags if and only if the size is at most 0xFFFFFFF8 |
| `BitFlags.Flags.constructor` | src/cuckoocache.h:62-71 | All flags start set |
| `BitFlags.Flags.BitSet` | src/cuckoocache.h:92-95 | Sets one flag and no other |
| `BitFlags.Flags.BitUnset` | src/cuckoocache.h:103-106 | Clears one flag and no other |
| `CuckooCache.FastRangeBound` | src/util/fastrange.h:19-22 | The range reduction stays in range |
| `CuckooCache.LocsScale` | src/cuckoocache.h:239-249 | The k-th position is the k-th hash scaled to the table size and rounded down |
| `CuckooCache.NextLoc` | src/cuckoocache.h:414-427 | The position after the one the element was met at, counting round, and the second one at the start; never the same one if the positions are distinct |
| `CuckooCache.EpochSizeExact` | src/cuckoocache.h:336-349 | The epoch size is 45% of the table exactly while the product fits 32 bits |
| `CuckooCache.NotAtHome` | src/cuckoocache.h:466-476 | An element at none of its eight positions is nowhere in the table |
| `CuckooCache.TakenAtOnce` | src/cuckoocache.h:403-412 | With a free position the new element is live and recent at the first of them and nothing else changes; an exhausted chain had none |
| `CuckooObject.Cache.constructor` | src/cuckoocache.h:336-349 | A fresh cache is all garbage and satisfies the invariant |
| `CuckooObject.Cache.CountRecent` | src/cuckoocache.h:285-300 | Counts the live slots of the latest epoch |
| `CuckooObject.Cache.Age` | src/cuckoocache.h:301-306 | Old entries become garbage, recent ones old |
| `CuckooObject.Cache.EpochCheck` | src/cuckoocache.h:285-318 | Nothing while the counter runs; then a new epoch exactly if the latest one is full, with the counter reset; afterwards there is room for one more under the ceiling |
| `CuckooObject.Cache.Contains` | src/cuckoocache.h:466-476 | True exactly if the element is at one of its positions, and then it was inserted or is the default; erasing marks only its slot |
| `CuckooObject.Cache.Refresh` | src/cuckoocache.h:397-402 | Finds a known element and makes its slot recent |
| `CuckooObject.Cache.FirstGarbage` | src/cuckoocache.h:404-412 | The first discardable position, if any |
| `CuckooObject.Cache.Displace` | src/cuckoocache.h:427-436 | One step of the eviction chain conserves elements and keeps everything placed |
| `CuckooObject.Cache.Insert` | src/cuckoocache.h:389-437 | After the epoch check the elements move along one eviction chain, epoch flags with them: at once into the first free position if there is one, else from position to position until one is free or the depth limit is reached; all elements but one discarded stay |
| `CuckooObject.Cache.Evict` | src/cuckoocache.h:403-437 | The chain itself: an ended one overwrites garbage, an exhausted one made as many moves as the limit allows |
| `BlockChain.LowestOneCleared` | src/chain.cpp:74-74 | n & (n - 1) subtracts exactly the lowest set bit |
| `BlockChain.GetSkipHeight` | src/chain.cpp:77-85 | The skip height is strictly lower |
| `BlockChain.SkipHeightIs` | src/chain.cpp:71-83 | Even heights lose their lowest set bit; odd ones lose the two above the lowest and stay odd |
| `BlockChain.GetAncestor` | src/chain.cpp:87-112 | The search with skip pointers terminates and finds exactly the block of the plain walk along pprev, or null outside the range |
| `BlockChain.BuildSkip` | src/chain.cpp:119-123 | The skip pointer built with the search is the ancestor at the skip height |
| `BlockChain.Grow` | src/chain.cpp:119-123 | Every tree grown block by block has only right skip pointers |
| `BlockChain.Chain.SetTip` | src/chain.cpp:14-24 | From any earlier chain the early stop still leaves exactly the path to the new tip |
| `BlockChain.Chain.Overwrite` | src/chain.cpp:20-23 | The loop of SetTip writes the path down to the first agreeing block and touches nothing below |
| `BlockChain.Chain.FindFork` | src/chain.cpp:54-63 | The highest block of the chain among the given block and its ancestors, or null if there is none |
| `BlockChain.Chain.GetLocator` | src/chain.cpp:26-52 | Lists blocks from the start down to the one without predecessor, strictly descending, at the heights of the closed form, whether found by height in the chain or with skip pointers |
| `BlockChain.LocatorClosedForm` | src/chain.cpp:34-49 | The i-th locator entry is i below the start up to eleven, then 9 + 2**(i - 10) below, clamped; only the last entry is genesis |
| `BlockChain.LocatorDescends` | src/chain.cpp:34-49 | Every locator entry is strictly lower than the one before |
| `BlockChain.LastCommonAncestor` | src/chain.cpp:159-174 | The highest shared ancestor; the closing assertion always holds, and null means not even a shared genesis |
| `BaseUint.Uint.constructor` | src/arith_uint256.h:32-38 | Zero of any width |
| `BaseUint.Uint.Copy` | src/arith_uint256.h:40-46 | A copy of the limbs |
| `BaseUint.Uint.Assign` | src/arith_uint256.h:86-93 | Takes a 64-bit value |
| `BaseUint.Uint.GetLow64` | src/arith_uint256.h:245-249 | The value modulo 2**64 |
| `BaseUint.Uint.Add` | src/arith_uint256.h:133-143 | Addition modulo 2**(32 * width), also of a number to itself |
| `BaseUint.Uint.Increment` | src/arith_uint256.h:171-178 | Adds one modulo 2**(32 * width) |
| `BaseUint.Uint.Decrement` | src/arith_uint256.h:188-195 | Subtracts one modulo 2**(32 * width) |
| `BaseUint.Uint.Complement` | src/arith_uint256.h:67-73 | 2**(32 * width) - 1 minus the value |
| `BaseUint.Uint.Negated` | src/arith_uint256.h:75-82 | The negation modulo 2**(32 * width) |
| `BaseUint.Uint.Subtract` | src/arith_uint256.h:145-149 | Subtraction modulo 2**(32 * width) |
| `BaseUint.Uint.CompareTo` | src/arith_uint256.cpp:109-119 | The order of the values |
| `BaseUint.Uint.EqualTo` | src/arith_uint256.cpp:121-133 | Equality with a 64-bit value |
| `BaseUint.Uint.NumBits` | src/arith_uint256.cpp:196-209 | The bit length of the value |
| `BaseUint.BitLengthBounds` | src/arith_uint256.h:239-243 | The bit length is the position of the highest set bit plus one |
| `BaseUint.Uint.ShiftLeft` | src/arith_uint256.cpp:21-36 | Multiplication by a power of two modulo 2**(32 * width), for every shift |
| `BaseUint.Uint.ShiftRight` | src/arith_uint256.cpp:38-53 | Division by a power of two, rounded down, for every shift |
| `LimbShifts.LeftValue` | src/arith_uint256.cpp:21-36 | What the limbs of a left shift are worth |
| `LimbShifts.RightValue` | src/arith_uint256.cpp:38-53 | What the limbs of a right shift are worth |
| `BaseUint.Uint.MultiplyWord` | src/arith_uint256.cpp:55-65 | Product with a 32-bit word modulo 2**(32 * width) |
| `Limbs.WordProduct` | src/arith_uint256.cpp:59-77 | The 64-bit accumulators of both multiplications never overflow |
| `BaseUint.Uint.AddScaled` | src/arith_uint256.cpp:72-77 | One row of the schoolbook multiplication |
| `BaseUint.Uint.Multiply` | src/arith_uint256.cpp:67-81 | Product modulo 2**(32 * width), also of a number with itself |
| `BaseUint.Uint.QuotientBit` | src/arith_uint256.cpp:97-104 | One round of the division keeps dividend = quotient * divisor + rest and sets a bit that was clear |
| `BaseUint.Uint.DivideBits` | src/arith_uint256.cpp:97-105 | The rounds of the division, from the highest bit down, end with the exact floor quotient |
| `BaseUint.Uint.Divide` | src/arith_uint256.cpp:83-107 | The exact quotient rounded down for every non-zero divisor; an error that leaves zero otherwise |
| `Compact.SetCompact` | src/arith_uint256.cpp:232-250 | The value is the denoted number modulo 2**256; overflow is flagged exactly when it is at least 2**256, negative exactly for a non-zero number with the sign bit |
| `Compact.OverflowTest` | src/arith_uint256.cpp:245-248 | The three-way test is equivalent to mantissa * 256**(exponent - 3) >= 2**256 |
| `Compact.LeadingBytes` | src/arith_uint256.cpp:254-261 | The leading three bytes by shifting |
| `Compact.RawToCanonical` | src/arith_uint256.cpp:254-268 | Dropping a byte when the sign bit is taken gives the canonical exponent and mantissa |
| `Compact.GetCompact` | src/arith_uint256.cpp:252-273 | Both assertions hold and the word is the canonical one |
| `Compact.DecodeEncode` | src/arith_uint256.cpp:232-273 | SetCompact after GetCompact rounds down to the kept bytes, does not overflow, and keeps the sign |
| `Compact.RepresentableFixed` | src/arith_uint256.cpp:232-273 | Every number a word denotes is unchanged by encoding |
| `Compact.LargestRepresentable` | src/arith_uint256.cpp:232-273 | GetCompact yields the largest denotable number that is not above the value |
| `Compact.CompactMonotone` | src/arith_uint256.cpp:252-273 | Compact words order like the numbers they encode |
| `Compact.TargetBelowMax` | src/chain.cpp:125-138 | Adding one to a valid target does not wrap |
| `Compact.StakeTrust` | src/chain.cpp:133-137 | ~t / (t + 1) + 1 in 256 bits is exactly 2**256 / (t + 1) rounded down |
| `Compact.GetBlockTrust` | src/chain.cpp:125-138 | 2**256 / (t + 1) for proof of stake, 1 for proof of work, 0 for a negative, overflowing or zero target |
| `Compact.TrustOrder` | src/chain.cpp:125-138 | Every usable target is worth something, and for proof of stake a lower one never less |
| `Differences.DifferenceFormatter.Ser` | src/blockencodings.h:22-28 | Writes the distance from just after the previous index, or throws exactly when it is not larger |
| `Differences.DifferenceFormatter.Unser` | src/blockencodings.h:29-36 | Reads a distance; wrapped sums and too large indexes are noticed |
| `Differences.WriteIndexes` | src/blockencodings.h:39-49 | Succeeds exactly for increasing lists |
| `Differences.ReadIndexes` | src/blockencodings.h:39-49 | Succeeds exactly when every running sum fits the index type |
| `Differences.SumOfDifferences` | src/blockencodings.h:17-37 | Reading what was written gives the list back |
| `CompactBlocks.PositionsIncrease` | src/blockencodings.cpp:61-76 | Prefilled positions are strictly increasing, hence distinct |
| `CompactBlocks.FillOne` | src/blockencodings.cpp:75-75 | Filling an empty slot leaves one fewer |
| `CompactBlocks.OffersGenuine` | src/blockencodings.cpp:107-165 | A slot only ever shows a transaction offered under its short id |
| `CompactBlocks.PoolOutcome` | src/blockencodings.cpp:107-134 | After the pool a slot shows a transaction exactly if it is the only match of the short id among those scanned |
| `CompactBlocks.ExtraOutcome` | src/blockencodings.cpp:137-165 | After the extra pool it shows what was met first exactly if every match there has the same witness hash |
| `CompactBlockObject.SlotsChosen` | src/blockencodings.cpp:107-165 | Each free slot shows exactly the transaction the scanned candidates determine by counting matches |
| `CompactBlockObject.OnlyMatchFound` | src/blockencodings.cpp:107-165 | A single match among all candidates is found in spite of the early exits |
| `CompactBlockRelay.RequestedExactly` | src/blockencodings.cpp:107-176 | A transaction with one match among all candidates is not requested, one without any is |
| `CompactBlocks.FilledIsBlock` | src/blockencodings.cpp:178-193 | If the available transactions are the block's, supplying the others in order rebuilds the block |
| `CompactBlockObject.PartialBlock.PlacePrefilled` | src/blockencodings.cpp:59-77 | Accepts exactly the well-placed lists and leaves one free slot for every short id; a refused list leaves the slots before the refused entry filled |
| `CompactBlockObject.PartialBlock.AssignSlots` | src/blockencodings.cpp:83-105 | The i-th short id gets the i-th free slot within the vector and 16 bits; fails exactly on a collision or a crowded bucket |
| `CompactBlockObject.PartialBlock.SkipTaken` | src/blockencodings.cpp:86-87 | The inner loop stops inside the vector at the next free slot |
| `CompactBlockObject.PartialBlock.Scan` | src/blockencodings.cpp:107-165 | Each slot ends in the state its own candidates put it in, up to the first point where all are filled; the counter is the number of filled slots |
| `CompactBlockObject.PartialBlock.OfferTo` | src/blockencodings.cpp:112-127 | One matching candidate |
| `CompactBlockObject.PartialBlock.InitData` | src/blockencodings.cpp:50-170 | Invalid exactly for unacceptable messages, failed exactly on collisions or crowding, else the slots hold the prefilled transactions and the outcome of both scans; the object is described in each case |
| `CompactBlockObject.PartialBlock.Request` | src/net_processing.cpp:3639-3643 | Lists exactly the unavailable positions, in order |
| `CompactBlockObject.PartialBlock.FillBlock` | src/blockencodings.cpp:178-221 | Invalid exactly when the number of supplied transactions is wrong, with the part of the block filled by then; else the completed block and the verdict of the block check; the object is spent unless too few were supplied |
| `CompactBlockRelay.Announce` | src/blockencodings.cpp:19-30 | The coinbase in full and the short id of every other transaction |
| `CompactBlockRelay.SendBlockTransactions` | src/net_processing.cpp:2098-2113 | The requested transactions, or a refusal exactly when an index is out of bounds |
| `CompactBlockRelay.AvailableIsRight` | src/blockencodings.cpp:50-170 | When a matching short id means the same transaction, everything available is the block's own |
| `CompactBlockRelay.InjectiveIsFaithful` | src/blockencodings.cpp:43-46 | Short ids that are injective on all hashes in sight make witness-id announcements unambiguous |
| `CompactBlockRelay.Relay` | src/blockencodings.cpp:19-221 | Announce, reconstruct, request, answer and fill: the receiver gets the sender's block, unless short ids collide within the block or a bucket is crowded, and does not request what one candidate supplies |
| `Bech32Code.PolyMod` | src/bech32.cpp:130-216 | The loop computes the remainder of the symbol list |
| `Bech32Code.ResidueXor` | src/bech32.cpp:130-216 | The remainder is linear under exclusive or |
| `Bech32Code.ChecksumExact` | src/bech32.cpp:341-352 | Six symbols complete a message to a target remainder exactly when they are the difference to six zeroes |
| `Bech32Code.SingleError` | src/bech32.cpp:130-216 | Two lists of equal length that differ in one symbol never share a remainder, at any length |
| `Bech32Code.DoubleStep` | src/bech32.cpp:194-212 | The code is linear over GF(32): scaling all coefficients commutes with a step |
| `Bech32Field.TimesETwice` | src/bech32.cpp:86-112 | The table step that multiplies by e makes e a root of x**2 + 9x + 23 over GF(32) |
| `Bech32Field.ScaleScale` | src/bech32.cpp:86-99 | Products of GF(32) elements associate with scaling in GF(1024) |
| `Bech32Field.MulE` | src/bech32.cpp:86-112 | Multiplying a factor by e multiplies the product by e |
| `Bech32Distance.PowerMul` | src/bech32.cpp:101-112 | Repeating the table step k times multiplies by the k-th power of e |
| `Bech32Distance.Primitive` | src/bech32.cpp:37-43 | A power of e is one if and only if 1023 divides its exponent |
| `Bech32Distance.PowersDistinct` | src/bech32.cpp:42-45 | The entries of the exponential table are distinct, so each has one logarithm |
| `Bech32Distance.GeneratorVanishes` | src/bech32.cpp:158-175 | The generator vanishes at the 997th, 998th and 999th powers of e |
| `Bech32Distance.StepTakesGenerator` | src/bech32.cpp:179-212 | A step of the remainder subtracts a multiple of the generator and nothing else |
| `Bech32Distance.ValueOfResidue` | src/bech32.cpp:130-216 | A message and its remainder have the same value at the three roots, for every message |
| `Bech32Distance.DoubleError` | src/bech32.cpp:136-142 | Two lists that differ in one or two symbols less than 1023 places apart never share a remainder |
| `Bech32Distance.TripleError` | src/bech32.cpp:136-142 | Two lists that differ, in at most three symbols within a window of 1023, never share a remainder, at any length |
| `Bech32.CharsetInverse` | src/bech32.cpp:22-35 | The decoding table inverts the character set |
| `Bech32.CharsetRevInverse` | src/bech32.cpp:22-35 | The character set inverts the decoding table, up to case |
| `Bech32.CharsetIs` | src/bech32.cpp:23-23 | The character set, letter by letter |
| `Bech32.ExpandHRP` | src/bech32.cpp:312-324 | High bits, a zero, low bits |
| `Bech32.ExpandedParts` | src/bech32.cpp:311-324 | Every character is taken apart into two symbols that make it up again, around a zero |
| `Bech32.CreateChecksum` | src/bech32.cpp:341-352 | Computes the checksum of the specification |
| `Bech32.VerifyChecksum` | src/bech32.cpp:327-338 | Recognises the encoding by the remainder |
| `Bech32.ChecksumLaw` | src/bech32.cpp:327-352 | Of all six-symbol endings exactly the created checksum verifies as its encoding |
| `Bech32.CheckCharacters` | src/bech32.cpp:287-309 | Lists, in order, exactly the positions of unprintable characters and of letters not in the case of the first letter; true exactly when the string is printable and of one case |
| `Bech32.Encode` | src/bech32.cpp:357-370 | Builds the encoded string |
| `Bech32.Decode` | src/bech32.cpp:373-397 | Computes the decoding of any string, refusals included |
| `Bech32.DecodeEncode` | src/bech32.cpp:356-397 | Decode inverts Encode exactly for non-empty printable prefixes within 90 characters, and refuses the others |
| `Bech32.EncodeDecode` | src/bech32.cpp:356-397 | Whatever Decode accepts is, in lower case, the encoding of the result |
| `Bech32.DecodeCase` | src/bech32.cpp:373-397 | Decode does not see the case of a string of one case |
| `Bech32.DecodeExactly` | src/bech32.cpp:356-397 | The strings that decode are exactly the encodings of decodable inputs, in lower or upper case |
| `Bech32.KnownStrings` | src/test/bech32_tests.cpp:14-39 | The shortest valid string of each encoding comes out of Encode letter by letter |
| `Bech32.DecodeDetects` | src/bech32.cpp:373-397 | Replacing one to three characters after the separator of a decodable string, other than by changing case or adding a separator, never decodes under the same checksum constant |
| `Radix.EncodeBuffer` | src/base58.cpp:97-98 | 256**n <= 58**(n * 138 / 100 + 1) for every n |
| `Radix.DecodeBuffer` | src/base58.cpp:51-53 | 58**n <= 256**(n * 733 / 1000 + 1) for every n |
| `Radix.ShortestOfValue` | src/base58.cpp:77-83 | Digits without a leading zero are the digits of their value |
| `Base58.AlphabetIs` | src/base58.cpp:18-36 | The alphabet is the digits and letters without four that look alike, in ascending order |
| `Base58.MultiplyAdd` | src/base58.cpp:101-111 | The carry loop multiplies and adds in place, leaves no carry when the result fits, and the running length stays exact |
| `Base58.ToBase58` | src/base58.cpp:96-113 | The bytes as a base-58 number; the carry assertion always holds |
| `Base58.EncodeBase58` | src/base58.cpp:87-125 | A one for every leading zero byte, then the shortest base-58 digits |
| `Base58.FromBase58` | src/base58.cpp:51-71 | The base-58 digits as a number; the carry assertion always holds and the length test is exact |
| `Base58.DecodeBase58` | src/base58.cpp:127-133 | Decodes any string: surrounding spaces ignored, other characters, embedded zeroes and too long results refused |
| `Base58.DecodeEncode` | src/base58.cpp:38-125 | Decoding inverts encoding for every byte string within the limit, leading zeroes included, and refuses longer ones |
| `Base58.EncodeDecode` | src/base58.cpp:38-125 | An accepted text is, up to surrounding spaces, the encoding of its bytes |

## Left out

- The partial batches of the coin store and the replay of an interrupted flush from its head blocks: the store is one atomic write here.
- `EmplaceCoinInternalDANGER`, memory usage, `SetBackend`, `AddCoins`, `HaveInputs` and `AccessByTxid` of the coin caches: thin wrappers.
- Stop requests and thread creation of the check queue; spurious wakeups are allowed by the state machine but not needed for progress.
- The walk of the address manager's `Select_` and `GetChance`: floating point and probabilistic termination.
- `FindAddressEntry_`, `size` and logging of the address manager: plain lookups.
- AddrManFile.Serialize: writes a record of values, not a byte stream; the network-specific address format and the versions before the current one are not modelled.
- AddrManFile.Unserialize: reads such a record; truncated or malformed bytes are not modelled.
- AddrManRuns.EveryRun: times are positive, as the source's callers pass; ids and counters do not overflow 32 bits.
- The depth limit of the cuckoo cache (a floating-point logarithm) is a parameter, `setup_bytes` is left out, and atomicity of the erase flags is not modelled.
- `FindEarliestAtLeast` and `GetBlockProofEquivalentTime`: a library binary search and saturating display arithmetic.
- BlockChain.Chain.GetLocator: returns the blocks whose hashes the source lists, and its step does not overflow 32 bits.
- Text conversion, `getdouble` and the bitwise operators of the multi-limb integers: text, floating point or one-line loops.
- CompactBlockObject.PartialBlock.InitData: `extra_count`, which only feeds a log line, is left out.
- The serialization of compact block messages other than the differential index list; the 16-bit limits that reading enforces are a precondition.
- Bech32Distance.TripleError: that four wrong symbols within 89 places are noticed is not proved; it holds of this generator by a search over all error patterns, not by an algebraic argument.
- `LocateErrors` and its syndrome table: they only guess where an error is.
- CuckooObject.Cache.constructor: sizes above 0xFFFFFFF8 are excluded, since by `BitFlags.EnoughBytes` the flag array is then too short for the slots.
- Base58Check: a hash check on top of Base58.
- Compression, filters, ban lists, databases, configuration, RPC and user interface.
