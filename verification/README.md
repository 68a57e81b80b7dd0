# Verified models of a node's data structures

This project models, in Dafny 4.11, the parts of a Bitcoin-derived full node (Firo) whose correctness rests on
redundant bookkeeping, on concurrency or on fixed-width arithmetic, and proves what each of them is for.
`dafny verify dfyconfig.toml` checks everything.

| module | what it models | main results |
|---|---|---|
| `CoinsView`, `CoinsCache` | the stack of unspent-output caches with DIRTY and FRESH flags | every run over a stack of any depth equals the same run on one plain map; the flags stay truthful; the merge never throws |
| `AddrManBooks`, `AddrMan`, `AddrManLoad`, `AddrManStream` | the address manager and its file format | every operation keeps the seven structures consistent; no assertion can fail; which cells, reference counts and fields an operation changes is exact; saving and loading loses nothing; which files give a consistent manager, and which leave an inconsistent one when they are cut short |
| `CheckQueue` | the verification queue, one master and any number of workers | the answer of `Wait` is right in every interleaving, no wake-up is lost, `Wait` ends under every schedule with finitely many spurious wake-ups |
| `CuckooCache` | the cache of verified signatures | conservation under displacement, what is dropped and exactly when, the load bound over every run and the table sizes for which it leaves room, how long an entry survives |
| `KeyOrder`, `DbTransaction`, `DbIterator` | nested database transactions and their merging iterator | reads are overlays, commits move the view, iteration shows each live key once and in order, at any depth |
| `ArithUint`, `Compact` | big integers over 32-bit limbs, compact difficulty targets, block proof | exact modular arithmetic and division for every width; exact flags, rounding and monotonicity of the compact form |
| `SkipWalk`, `Chain` | block index with skip pointers, active chain | skip walks equal plain walks and take a number of steps quadratic in the bits of the height, the early stop of `SetTip` is sound, the fork is the highest common block, the locator is logarithmic |
| `Positional`, `Base58` | Base58 and Base58Check | round trips both ways, up to white space; the buffers always suffice |
| `RollingBloom` | the rolling Bloom filter | it answers exactly as a plain filter over the last three generations; recent keys are never missed |
| `CompactBlock` | BIP 152 compact blocks | slots are found for every short id, a block that is relayed comes out as it was when short ids are unambiguous, where 16-bit positions and indexes wrap |
| `Compressor` | stored coins: variable-length integers, amounts, scripts | every coin that can exist comes back; the integer and amount codes are one-to-one |
| `Numbers`, `Options`, `Totals` | shared arithmetic, optional values, sums over maps | |

Objects that the program updates in place are classes here, arrays are arrays, and loops are loops; each method is
proved against a function of its old state, the laws are lemmas about those functions, and contracts or further lemmas
say what such a function gives in terms of fields, cells and bytes alone. The queue is a state
machine whose steps are the critical sections. Hash functions, keys drawn at random, the clock, the elliptic curve and
the block check are parameters about which nothing is assumed except what is written in a `requires` clause.

Some observations about the code, each stated by a member of the model:

* `CAddrMan::Clear` does not empty the entry and address maps, so it leaves a consistent manager exactly when both
  were empty (`AddrMan.CAddrMan.Clear`). It is called after a file could not be read; the manager is consistent then
  exactly if the reading failed before anything was entered (`AddrManStream.Reload`), and it is not after a file that
  announces two new entries and holds one (`AddrManStream.CutShort`). A file that is read to its end gives a
  consistent manager exactly under `AddrManLoad.Loadable` (`AddrManStream.Unserialize`).
* `AddCoin` lowers the cache's memory total before it refuses an overwrite, so that an exact total stays exact through
  a refusal only if the coin in place has no dynamic memory (`CoinsCache.CoinsViewCache.AddCoin`).
* A coin that is added as new although a view below still shows it unspent leads to the exception in the merge
  (`CoinsView.MisuseReachesTheThrow`); `CoinsView.AddKeepsInvariantIff` says exactly when an addition is harmless.
* In the cuckoo cache the first slot tried for displacement is the second location, not the first as its comment says
  (`CuckooCache.SecondLocationFirst`). The same comment says that the element put in last is not moved again; it is,
  exactly if the first selector of its slot is followed by another one of the same slot (`CuckooCache.LastMovesIff`,
  with an input in `CuckooCache.LastCanMove`). The load of about 90% is 2 * (45% + 45%/16) at worst; tables of 2, 4, 8
  and 16 slots do fill up, larger ones never (`CuckooCache.SmallTableFills`, `CuckooCache.NeverFullIff`).
* Requested indexes are read with a 16-bit offset that wraps after 65535, so that what is read is ascending exactly if
  only the last difference leads to 65535 (`CompactBlock.IndexesAscendIff`, `CompactBlock.WrappedIndexes`).
* A compact block may have 200,000 transactions, but positions are kept in 16 bits: every short id leads to its slot
  exactly if no free slot lies beyond position 65535 (`CompactBlock.MappedIff`). For a block of 65537 transactions the
  last short id leads to the slot of the first transaction (`CompactBlock.LastIdWraps`), and with more than 65535
  prefilled transactions the 16-bit search for a free slot finds none (`CompactBlock.NoFreeSlot`).
* The comment about skip pointers speaks of at most 110 steps among heights of 18 bits in simulations; 117 is proved
  (`SkipWalk.StepsBound`).
* A failed connection is counted once after the last success anywhere, unless the clock is behind that success
  (`AddrMan.CountedOnce`, `AddrMan.CountedTwiceIff`).
* A big integer multiplied by itself in place ends as zero (`ArithUint.BaseUint.Multiply`).
* Dividing a big integer by zero clears it before failing (`ArithUint.BaseUint.Divide`).

## Model

| member | source | states |
|---|---|---|
| `CoinsView.LookupAgrees` | src/coins.cpp:55-62 | whatever the layers hold, a lookup from the top finds an unspent coin exactly where the plain map has it, and a spent placeholder never passes for a coin |
| `CoinsView.FetchIsInvisible` | src/coins.cpp:38-53 | loading a coin through every layer keeps all flags truthful and changes nothing that any layer shows |
| `CoinsView.FetchLoads` | src/coins.cpp:38-53 | a lookup leaves the coin found, clean and FRESH exactly if it is spent, in every layer above the first that had it, and changes no other layer |
| `CoinsView.AddKeepsInvariantIff` | src/coins.cpp:64-83 | an addition keeps the FRESH and DIRTY promises if and only if a coin claimed as new is not shown by the views below, or the clash is in this cache; then the map changes by that coin alone |
| `CoinsView.SpendRemoves` | src/coins.cpp:95-108 | spending removes exactly that coin from the map, also when the entry is erased because it was FRESH |
| `CoinsView.UncacheIsInvisible` | src/coins.cpp:204-211 | dropping an unmodified entry changes neither map nor promises |
| `CoinsView.FlushNeverThrows` | src/coins.cpp:141-195 | with truthful flags no child entry is FRESH over an unspent parent entry, so the merge's exception is unreachable |
| `CoinsView.MergeAt` | src/coins.cpp:141-195 | after the merge the parent shows at every outpoint what the child showed |
| `CoinsView.BatchWriteMovesMeaning` | src/coins.cpp:141-195 | a batch write gives the view below the child's whole meaning and re-establishes its flag promises against the view below it |
| `CoinsView.FlushIsInvisible` | src/coins.cpp:197-202 | flushing leaves the top view's map and every layer's promises as they were |
| `CoinsView.MaintainIsInvisible` | src/coins.cpp:38-53 | lookups, drops and flushes at any layer of a stack of any depth are invisible from the top |
| `CoinsView.StepRefinesPlainMap` | src/coins.cpp:38-211 | each operation on a stack of caches is the same operation on one plain map |
| `CoinsView.RunRefinesPlainMap` | src/coins.cpp:38-211 | so is every run of additions, spends, modifications, lookups, drops, flushes and new caches, and all flags stay truthful throughout |
| `CoinsView.MisuseReachesTheThrow` | src/coins.cpp:166-167 | a concrete misuse for which the merge would throw |
| `CoinsCache.TotalPut` | src/coins.cpp:38-53 | replacing, adding or erasing one entry moves the memory total by the difference of the two sizes |
| `CoinsCache.CoinsViewDB.BatchWrite` | src/txdb.cpp:79-102 | the database takes over dirty entries only: unspent ones stored, spent ones erased, everything else as it was |
| `CoinsCache.CoinsViewCache.FetchCoin` | src/coins.cpp:38-53 | the object, all the way down the stack, does what the value-level lookup does; a coin found below is cached clean, FRESH exactly if it is spent; the memory total stays exact |
| `CoinsCache.CoinsViewCache.GetCoin` | src/coins.cpp:55-62 | a lookup answers from the stack's meaning and does not change it |
| `CoinsCache.CoinsViewCache.AccessCoin` | src/coins.cpp:112-119 | a missing coin is read as the empty one |
| `CoinsCache.CoinsViewCache.HaveCoin` | src/coins.cpp:121-124 | true exactly for the coins of the plain map |
| `CoinsCache.CoinsViewCache.AddCoin` | src/coins.cpp:64-83 | refused exactly for a spendable coin claimed as new over an unspent entry; an unspendable one changes nothing; otherwise the entry is dirty and keeps or gets the FRESH flag as its state calls for. A refusal leaves entries alone but has lowered the memory total, which stays exact only if nothing was to be charged |
| `CoinsCache.CoinsViewCache.SpendCoin` | src/coins.cpp:95-108 | gives out the coin found; a FRESH entry is erased, any other becomes the empty coin to be written; the total stays exact |
| `CoinsCache.CoinsViewCache.Uncache` | src/coins.cpp:204-211 | an entry without flags is gone afterwards, all others stay; meaning and total are kept |
| `CoinsCache.CoinsViewCache.MergeOne` | src/coins.cpp:143-189 | throws exactly for a FRESH change over an unspent entry; otherwise a change replaces the coin, or removes the entry if it is spent and FRESH below; nothing else moves and the memory total is exact |
| `CoinsCache.CoinsViewCache.BatchWrite` | src/coins.cpp:141-195 | the loop over the child's entries, in any order, does that for every one of them and leaves all others alone |
| `CoinsCache.CoinsViewCache.Flush` | src/coins.cpp:197-202 | the cache is emptied and what the stack means does not change |
| `CoinsCache.CoinsViewCache.ModifyCoin` | src/coins.h:293-298 | the coin is replaced by its modification wherever in the stack it was, unless that is unspendable |
| `CoinsCache.CoinsViewCache.AddCoins` | src/coins.cpp:85-93 | every spendable output is in the map afterwards with its value, script, coinbase flag and height; an unspendable one leaves its outpoint as it was, and so does every other outpoint |
| `CoinsCache.OutputsAdded` | src/coins.cpp:85-93 | the same of the additions to the plain map, after any number of outputs |
| `CoinsCache.CoinsViewCache.AccessByTxid` | src/coins.cpp:243-252 | finds an unspent output of the transaction if the map has one among the indexes tried, and says when there is none |
| `AddrMan.CAddrMan.constructor` | src/addrman.h:459-483 | a new manager is empty and consistent |
| `AddrMan.CAddrMan.Clear` | src/addrman.h:459-478 | from whatever state, leaves a consistent manager if and only if the entry and address maps were empty, because they are not emptied |
| `AddrMan.CAddrMan.Create` | src/addrman.cpp:81-91 | the new entry is listed and indexed, and is the only one that belongs to no table yet |
| `AddrMan.CAddrMan.SwapRandom` | src/addrman.cpp:93-111 | the random order and the recorded positions stay inverse and nothing else changes |
| `AddrMan.CAddrMan.Delete` | src/addrman.cpp:113-125 | removes an entry that is in neither table, as its assertions demand of every caller, from all structures at once |
| `AddrMan.CAddrMan.ClearNew` | src/addrman.cpp:127-140 | the cell's holder has a reference to lose, and is deleted, being in no table, if it was the last |
| `AddrMan.CAddrMan.DropReferences` | src/addrman.cpp:144-154 | takes every reference of an entry out of the new table, and no other one, and the count comes out as zero |
| `AddrMan.CAddrMan.Rehome` | src/addrman.cpp:172-181 | an entry evicted from the tried table gets the cell of its source in the new table, whose holder may be lost |
| `AddrMan.CAddrMan.Vacate` | src/addrman.cpp:160-183 | the tried cell is free afterwards, at the cost of at most one new entry |
| `AddrMan.CAddrMan.Seat` | src/addrman.cpp:183-187 | the entry takes the one tried cell that its hash gives it |
| `AddrMan.CAddrMan.MakeTried` | src/addrman.cpp:142-188 | which cells of both tables change, and to what, is exact: the entry leaves the new table and takes its tried cell, and the one in its way goes to the cell of its source; at most one entry with a single reference is lost; nothing else about any entry changes |
| `AddrMan.CAddrMan.FindNewBucket` | src/addrman.cpp:219-234 | the search over all buckets from any start always succeeds, so the bail-out after it is dead |
| `AddrMan.CAddrMan.Good` | src/addrman.cpp:190-240 | a known service is tried afterwards with its success recorded and its failures forgotten, the cells of both tables are exact, unknown services change nothing, consistency is kept |
| `AddrMan.CAddrMan.Attempt` | src/addrman.cpp:315-335 | only the exact service is concerned: the time of the try is recorded, and a failure is counted if and only if it is to count and none was counted since the last success anywhere |
| `AddrMan.CountedOnce` | src/addrman.cpp:329-334 | over any sequence of attempts not before the last success anywhere, exactly one failure is counted if there is one to count |
| `AddrMan.CountedTwiceIff` | src/addrman.cpp:329-334 | two failures in a row are both counted if and only if the first is timed before that success |
| `AddrMan.CAddrMan.Connected` | src/addrman.cpp:483-501 | the time seen moves only after twenty minutes |
| `AddrMan.CAddrMan.SetServices` | src/addrman.cpp:503-519 | only the service bits of the exact service change |
| `AddrMan.CAddrMan.Place` | src/addrman.cpp:291-311 | the cell that the source gives is taken if and only if it is not the entry's own already and is free, or its holder is terrible, or that has other references and the entry has none; then the count grows by one and the holder's falls by one; in every other case all cells and counts stay. Whoever is lost is terrible, or is the entry itself when its only cell is not to be had |
| `AddrMan.CAddrMan.Add` | src/addrman.cpp:242-313 | an address that is not routable changes nothing. A known one gets the services and the time announced, less the penalty, under the exact conditions; it gets one more reference, in the cell that the source gives, if and only if the time is news, it is untried, has less than eight references, the draw out of 2 to the count is zero, and that cell is free or its holder, another entry, is terrible; in every other case its count and all cells stay. A new one is entered with exactly these fields if and only if its cell can be had. Tried entries are untouched and only terrible entries are lost |
| `AddrMan.CAddrMan.AddKnown` | src/addrman.cpp:256-283 | the same for a known address |
| `AddrMan.CAddrMan.AddNew` | src/addrman.cpp:284-312 | the same for an unknown address: the cell its source gives goes to it if that is free or its holder is terrible or has other references, and what is recorded about it is exact |
| `AddrMan.RefreshedIs` | src/addrman.cpp:257-264 | services are added and the time moves exactly if it was unknown or is more than an hour behind, a day for announcements that are a day old, never below zero |
| `AddrMan.WorthKeeping` | src/addrman.cpp:33-51 | an entry is not terrible if and only if it was tried in the last minute, or was seen in the last thirty days and not in the future, has answered or failed less than three times, and has answered in the last week or failed less than ten times |
| `AddrMan.SlotParts` | src/addrman.cpp:12-31 | a cell is in the bucket that its table's hash gives, at the position hashed from the service and the bucket |
| `AddrMan.CAddrMan.GetAddr` | src/addrman.cpp:462-481 | at most 23% and at most 2500 distinct entries that are not terrible, each with its service, time and services, fewer only after looking at all of them; only the random order changes |
| `AddrManStream.Serialize` | src/addrman.h:303-351 | the stream describes exactly the entries, field by field, and the new-table references |
| `AddrManStream.WriteNew` | src/addrman.h:317-327 | every new entry of a consistent manager is written once and numbered in order, and the assertion on the count holds |
| `AddrManStream.WriteTried` | src/addrman.h:328-336 | the same for tried entries |
| `AddrManStream.WriteBuckets` | src/addrman.h:337-350 | each bucket is written as the indexes of its entries in order |
| `AddrManLoad.FlipBit30Is` | src/addrman.h:315 | the mark in the bucket count changes bit 30 and no other, and twice changes nothing |
| `AddrManLoad.EnterNew` | src/addrman.h:383-387 | a new record enters the random order and the index without disturbing the tables, even if its address is taken |
| `AddrManLoad.EnterNewAt` | src/addrman.h:388-398 | and so with a reference of its own in a free cell |
| `AddrManStream.EnterOneNew` | src/addrman.h:382-399 | a record is given a home cell exactly if written references cannot be used and the cell is free |
| `AddrManStream.ReadNew` | src/addrman.h:381-399 | fails exactly for a stream that ends too early, leaving the entries read and one for the record cut off; otherwise the entries are the records, numbered 0, 1, 2 and so on |
| `AddrManLoad.HomeRefsAre` | src/addrman.h:388-398 | where written references cannot be used, a record has one if and only if no record before it has the same home cell, and that is the cell it has |
| `AddrManLoad.TakenIff` | src/addrman.h:408 | a tried cell is taken if and only if an earlier tried record hashes to it |
| `AddrManLoad.EnterTried` | src/addrman.h:409-416 | a tried record in a free cell of its own leaves both tables right |
| `AddrManStream.EnterOneTried` | src/addrman.h:405-419 | a tried record is lost exactly if one before it has the same cell |
| `AddrManStream.ReadTried` | src/addrman.h:402-421 | of any tried records the first comers to each cell are entered and the others counted as lost; nothing is entered exactly if there is nothing to read |
| `AddrManLoad.FirstComersAre` | src/addrman.h:402-421 | a tried record is entered if and only if no record before it hashes to the same cell, and the order stays |
| `AddrManLoad.AddReference` | src/addrman.h:432-435 | a reference restored to a free cell keeps the counts exact |
| `AddrManStream.RestoreOne` | src/addrman.h:428-437 | a written reference is restored if and only if the index is in range, the references can be used, its cell is free and the entry has less than eight; nothing else changes |
| `AddrManStream.RestoreBucket` | src/addrman.h:424-438 | the cells after a bucket are those of its references taken in order |
| `AddrManStream.RestoreAll` | src/addrman.h:423-439 | so are those after all buckets, and it fails exactly if a bucket is missing |
| `AddrManStream.Prune` | src/addrman.h:441-451 | exactly the new entries without a reference go, with their addresses, even where another entry shares one |
| `AddrManLoad.AddrIff` | src/addrman.h:441-451 | the index is right afterwards if and only if no entry that stays shares its address with another |
| `AddrManLoad.ConsistentIff` | src/addrman.h:441-456 | the manager is consistent afterwards if and only if every entry that stays has an address of its own and sensible times |
| `AddrManStream.WithinLimits` | src/addrman.h:374-380 | a consistent manager never exceeds the table sizes that the reader checks |
| `AddrManStream.SavedComers` | src/addrman.h:402-421 | no tried record of a saved manager is lost |
| `AddrManStream.SavedRefs` | src/addrman.h:423-439 | every reference of a saved manager returns to its own cell |
| `AddrManStream.SavedLoadable` | src/addrman.h:303-457 | what a consistent manager writes is accepted and gives a consistent manager |
| `AddrManStream.ReadBack` | src/addrman.h:303-457 | and that manager is the original up to the numbering |
| `AddrManStream.Unserialize` | src/addrman.h:353-457 | on any stream no assertion fails, success is exact, and after success the entries are the records that survive, field by field, and the manager is consistent if and only if counts are not negative and surviving entries are sound; after a failure entries are left exactly if any were read; a saved stream gives the original up to numbering |
| `AddrManStream.Reload` | src/addrdb.cpp:197-218 | after a file that could not be read and the reset that follows, the manager is consistent if and only if nothing had been entered |
| `AddrManStream.CutShort` | src/net.cpp:2691-2697 | a file with one of two announced entries leaves that entry in an inconsistent manager |
| `AddrManStream.SaveAndLoad` | src/addrman.h:303-457 | writing and reading back loses no entry, none of the fields written, no reference and no place |
| `CheckQueue.TakeBatch` | src/checkqueue.h:111-117 | the batch is the end of the queue, last first, and the rest stays |
| `CheckQueue.RunBatch` | src/checkqueue.h:121-125 | although checks are skipped after a failure, the result is the conjunction of all of them with the flag at the start |
| `CheckQueue.Initial` | src/checkqueue.h:134 | a new queue with any number of threads has its accounts in order |
| `CheckQueue.EnteredKeeps` | src/checkqueue.h:78-90 | entering the lock, with the clean-up of the last batch, keeps the accounts |
| `CheckQueue.LoopTopKeeps` | src/checkqueue.h:91-120 | taking a batch, waiting and returning keep them too |
| `CheckQueue.TakesBatch` | src/checkqueue.h:105-119 | with checks in the queue a thread takes its share from the end, last first, at least one and at most the batch size allows, and runs them only if nothing has failed |
| `CheckQueue.WaitsOrReturns` | src/checkqueue.h:91-104 | with an empty queue the master returns exactly if nothing is outstanding; every other thread waits |
| `CheckQueue.AddKeeps` | src/checkqueue.h:149-161 | so does adding checks and waking workers, whichever worker is woken |
| `CheckQueue.AddWakes` | src/checkqueue.h:149-161 | two checks or more wake every waiting worker, one wakes one of them if any waits, none wakes nobody |
| `CheckQueue.SpuriousKeeps` | src/checkqueue.h:102-103 | and so do wake-ups without a reason |
| `CheckQueue.StepKeeps` | src/checkqueue.h:69-161 | in every state of every interleaving the outstanding count is the checks queued plus those in batches, and the result flag accounts for everything completed |
| `CheckQueue.ReturnIsRight` | src/checkqueue.h:91-100 | when the master returns nothing is outstanding anywhere and its answer is the conjunction of all checks added |
| `CheckQueue.AddedIsHistory` | src/checkqueue.h:149-161 | the checks that the model remembers as added are those of the run since the last return |
| `CheckQueue.WaitIsRight` | src/checkqueue.h:143-146 | in every run from the start, for every number of workers, the answer is true exactly when every check added since the previous one is |
| `CheckQueue.NoLostWakeUp` | src/checkqueue.h:80-103 | a master that waits without a pending notification has an empty queue and a worker still at work, and the worker that finishes the last check wakes it |
| `CheckQueue.WakesMasterIff` | src/checkqueue.h:80-86 | a worker that completes its batch wakes a waiting master if and only if nothing is left to do |
| `CheckQueue.NeverStuck` | src/checkqueue.h:69-127 | while the master is inside, some thread can take a step that needs no spurious wake-up |
| `CheckQueue.StepSettles` | src/checkqueue.h:69-127 | every such step brings the return nearer in a well-founded order |
| `CheckQueue.WaitResult` | src/checkqueue.h:69-146 | hence every schedule with finitely many spurious wake-ups ends, even one that looks at the whole history, and all of them with the same, right answer |
| `CuckooCache.SecondLocationFirst` | src/cuckoocache.h:392-406 | the first slot taken from another element is the second location |
| `CuckooCache.LastMovesIff` | src/cuckoocache.h:392-406 | the element put in last is the next to be moved if and only if the first selector of its slot is followed by another of the same slot |
| `CuckooCache.LastCanMove` | src/cuckoocache.h:392-406 | an element with two equal locations out of eight for which that happens |
| `CuckooCache.AgedSums` | src/cuckoocache.h:280-286 | ageing turns every live element into a dying one and leaves none live |
| `CuckooCache.PlaceConserves` | src/cuckoocache.h:382-416 | for any count over kept slots: a displacement chain adds the new element, takes away the dropped one and moves the others unharmed, epochs included |
| `CuckooCache.PlaceDisplaces` | src/cuckoocache.h:382-416 | along every chain of displacements, each element being found in the slot its predecessor took: if the chain is as long as the limit its last element is dropped, and if an earlier one has a collectable location it takes the first such and nothing is dropped; every slot of the table afterwards is given |
| `CuckooCache.ChainExists` | src/cuckoocache.h:382-416 | every insertion has such a chain, and no element on it but the last has a collectable location |
| `CuckooCache.DroppedIff` | src/cuckoocache.h:382-416 | something is dropped if and only if there is a chain of as many displacements as the limit |
| `CuckooCache.MovedAt` | src/cuckoocache.h:399-411 | an element of a chain stands in the slot it took, unless a later one took the same |
| `CuckooCache.NotMoved` | src/cuckoocache.h:399-411 | all other slots are as they were |
| `CuckooCache.ChainHeld` | src/cuckoocache.h:382-416 | unless the limit is reached, every element of the chain is kept in the table afterwards |
| `CuckooCache.EnterIs` | src/cuckoocache.h:368-416 | an element already there is only marked as kept and recent at its first location; any other starts a chain |
| `CuckooCache.FreeSlotDropsNothing` | src/cuckoocache.h:383-391 | an element with a collectable location is in the table afterwards and nothing is dropped |
| `CuckooCache.EnterConserves` | src/cuckoocache.h:368-416 | an insertion loses at most one kept element, and an element already kept is not entered twice |
| `CuckooCache.PlaceKeeps` | src/cuckoocache.h:382-416 | every element stays at one of its own eight locations and nowhere else, through any chain |
| `CuckooCache.EpochCheckKeeps` | src/cuckoocache.h:264-296 | after the epoch check the live epoch has room for the insert to come, whether it aged, rescheduled or only counted down |
| `CuckooCache.EnterLoad` | src/cuckoocache.h:368-416 | an insertion adds at most one live element and no dying one |
| `CuckooCache.InsertKeeps` | src/cuckoocache.h:368-416 | placement, uniqueness and the two load bounds survive every insertion |
| `CuckooCache.EraseKeeps` | src/cuckoocache.h:443-453 | and every erasing lookup |
| `CuckooCache.EraseIs` | src/cuckoocache.h:443-453 | an erasing lookup makes the first location that holds the element collectable and changes nothing else; what has that location is then inserted without loss |
| `CuckooCache.RunKeeps` | src/cuckoocache.h:264-453 | and every run of them |
| `CuckooCache.TwoEpochsFitIff` | src/cuckoocache.h:315-329 | two full epochs fit in the table if and only if it has 32 slots or more, 32-bit wrap-around of the 45% included |
| `CuckooCache.EpochSizeIs` | src/cuckoocache.h:325 | an epoch is 45% of the table, modulo 32 bits, rounded down, and at least one |
| `CuckooCache.RunNeverFills` | src/cuckoocache.h:264-453 | in every run at most two epoch bounds are kept, so from 32 slots on a collectable slot always exists |
| `CuckooCache.SmallTableFills` | src/cuckoocache.h:264-416 | for 2, 4, 8 and 16 slots a run of insertions that leaves no slot collectable |
| `CuckooCache.NeverFullIff` | src/cuckoocache.h:264-453 | whatever the hashes and the run, a collectable slot always exists: if and only if the table has 32 slots or more |
| `CuckooCache.KeptIsFound` | src/cuckoocache.h:443-453 | a lookup finds every kept element |
| `CuckooCache.ErasedIsStillFound` | src/cuckoocache.h:418-433 | an erasing lookup does not change the answer of any later lookup |
| `CuckooCache.RunFindsOnlyInserted` | src/cuckoocache.h:443-453 | in every run a lookup finds only what some insert brought, or the filling of a fresh table |
| `CuckooCache.InsertedStays` | src/cuckoocache.h:186-194 | whatever came before, an inserted element is found through a whole epoch of further inserts and one more, unless erased or displaced |
| `CuckooCache.Raise` | src/cuckoocache.h:92-95 | setting a packed flag changes that flag only |
| `CuckooCache.Lower` | src/cuckoocache.h:103-106 | so does clearing one |
| `CuckooCache.BitPackedFlags.constructor` | src/cuckoocache.h:61-68 | all flags, also those of the padding, start as discardable |
| `CuckooCache.BitPackedFlags.Set` | src/cuckoocache.h:92-95 | exactly one entry becomes discardable |
| `CuckooCache.BitPackedFlags.Unset` | src/cuckoocache.h:103-106 | exactly one entry becomes kept |
| `CuckooCache.SignatureCache.constructor` | src/cuckoocache.h:315-329 | a fresh table satisfies the invariant |
| `CuckooCache.SignatureCache.CountLive` | src/cuckoocache.h:272-275 | the scan counts the kept slots of the live epoch |
| `CuckooCache.SignatureCache.Age` | src/cuckoocache.h:281-285 | the pass over both flag arrays is the ageing of every slot |
| `CuckooCache.SignatureCache.CheckEpoch` | src/cuckoocache.h:264-296 | counting down changes nothing else; a full live epoch ages every slot; otherwise the next scan is due after the room left in the epoch, but not before a sixteenth of it |
| `CuckooCache.SignatureCache.PlaceElement` | src/cuckoocache.h:382-416 | the swapping loop over the arrays is a chain of displacements: an element is dropped only after as many as the limit, none of the elements on the way having a collectable location; otherwise the first element that has one takes it and nothing is dropped |
| `CuckooCache.SignatureCache.InsertElement` | src/cuckoocache.h:368-416 | the arrays after an insert are the model's, and the invariant is kept |
| `CuckooCache.SignatureCache.ContainsElement` | src/cuckoocache.h:443-453 | the answer is membership at the eight locations, and erasing makes the first location that holds the element collectable and no other |
| `KeyOrder.LessTotal` | src/dbwrapper.h:562-571 | the byte-wise order of keys is total |
| `KeyOrder.LessTransitive` | src/dbwrapper.h:562-571 | and transitive |
| `KeyOrder.LessIff` | src/dbwrapper.h:562-571 | a key is less than another if and only if it is the beginning of it or has the smaller byte where they first differ |
| `KeyOrder.WalkShowsAll` | src/dbwrapper.h:428-464 | stepping from key to next key shows exactly the keys from the starting point on |
| `KeyOrder.WalkAscends` | src/dbwrapper.h:428-464 | in ascending order, so each once |
| `DbTransaction.WriteUsage` | src/dbwrapper.h:615-629 | the charges added and taken back by a write are the change of the exact total over both sets |
| `DbTransaction.EraseUsage` | src/dbwrapper.h:677-686 | and those of an erase |
| `DbTransaction.Database.WriteBatch` | src/dbwrapper.cpp:91-96 | queued changes take effect in order |
| `DbTransaction.Transaction.Write` | src/dbwrapper.h:615-629 | the view changes at that key only, writes and deletes stay disjoint, the memory figure stays exact |
| `DbTransaction.Transaction.Erase` | src/dbwrapper.h:677-686 | the key disappears from the view even if the parent has it |
| `DbTransaction.Transaction.Read` | src/dbwrapper.h:636-653 | through any number of layers, a read answers from the overlay |
| `DbTransaction.Transaction.Exists` | src/dbwrapper.h:660-670 | so does an existence test |
| `DbTransaction.Transaction.Clear` | src/dbwrapper.h:688-692 | the parent's view shows again |
| `DbTransaction.Transaction.EraseAll` | src/dbwrapper.h:695-697 | the first loop of a commit takes the deletions over |
| `DbTransaction.Transaction.WriteAll` | src/dbwrapper.h:698-700 | the second one the writes, in any order |
| `DbTransaction.Transaction.Commit` | src/dbwrapper.h:694-702 | the parent shows afterwards what the transaction showed, at once or as soon as its batch is written; nothing below it changes |
| `DbTransaction.Transaction.GetMemoryUsage` | src/dbwrapper.h:708-719 | the figure is the exact sum over both sets, so the case of a negative figure never arises |
| `DbTransaction.EvoDb.CommitRootTransaction` | src/evo/evodb.cpp:17-25 | the database ends with what the current transaction showed, and readers see no difference |
| `DbIterator.MergeFirst` | src/dbwrapper.h:538-550 | the smaller of two first keys is the first of the union |
| `DbIterator.OtherStays` | src/dbwrapper.h:451-464 | stepping past a key of one set leaves the other set's position right |
| `DbIterator.SkipStep` | src/dbwrapper.h:528-536 | skipping a deleted or overwritten key skips nothing else |
| `DbIterator.SkipEnd` | src/dbwrapper.h:528-536 | where the skipping stops is the first parent key that is not hidden |
| `DbIterator.TransactionIterator.SkipDeletedAndOverwritten` | src/dbwrapper.h:528-536 | the loop ends at that key, or at the end of the parent |
| `DbIterator.TransactionIterator.SeekTo` | src/dbwrapper.h:428-445 | after a seek the iterator shows the first live key not below the target, at any nesting depth |
| `DbIterator.TransactionIterator.Next` | src/dbwrapper.h:451-464 | a step shows the least live key above the one shown, its two assertions hold, and at the end it stays there |
| `DbIterator.TransactionIterator.GetValue` | src/dbwrapper.h:515-525 | the key shown is live and its value is the one a read gives |
| `DbIterator.TransactionIterator.Collect` | src/dbwrapper.h:428-464 | a walk from a seek to the end shows every live key from the target on, once and in byte order |
| `ArithUint.BaseUint.Add` | src/arith_uint256.h:136-146 | addition modulo the word size, also of a number to itself |
| `ArithUint.BaseUint.Complement` | src/arith_uint256.h:70-76 | the complement and the number add up to all ones |
| `ArithUint.BaseUint.Increment` | src/arith_uint256.h:174-181 | the carry loop adds one modulo the word size |
| `ArithUint.BaseUint.Decrement` | src/arith_uint256.h:191-198 | the borrow loop subtracts one modulo the word size |
| `ArithUint.BaseUint.Negated` | src/arith_uint256.h:78-85 | the two's complement is the additive inverse |
| `ArithUint.BaseUint.Subtract` | src/arith_uint256.h:148-152 | subtraction modulo the word size |
| `ArithUint.BaseUint.MultiplyWord` | src/arith_uint256.cpp:55-65 | multiplication by a 32-bit number, no column exceeding 64 bits |
| `ArithUint.BaseUint.AddRow` | src/arith_uint256.cpp:72-79 | one row adds the shifted multiple but for what lies beyond the top limb, no column exceeding 64 bits |
| `ArithUint.BaseUint.Multiply` | src/arith_uint256.cpp:67-81 | the long multiplication is the product modulo the word size; multiplied by itself in place a number ends as zero |
| `ArithUint.BaseUint.ShiftLeft` | src/arith_uint256.cpp:21-36 | for every amount, also beyond the width, the product with the power of two modulo the word size; ORed parts never overlap |
| `ArithUint.BaseUint.ShiftRight` | src/arith_uint256.cpp:38-53 | for every amount, the quotient by the power of two |
| `ArithUint.BaseUint.CompareTo` | src/arith_uint256.cpp:109-119 | comparing limbs from the top orders the numbers |
| `ArithUint.BaseUint.Bits` | src/arith_uint256.cpp:172-185 | the length of the number in bits |
| `ArithUint.BaseUint.Reduce` | src/arith_uint256.cpp:97-104 | the subtract-and-halve loop ends with remainder and quotient, each quotient bit set once |
| `ArithUint.BaseUint.Divide` | src/arith_uint256.cpp:83-107 | floor division with the remainder in the working copy; a zero divisor fails after clearing the number |
| `ArithUint.BaseUint.GetLow64` | src/arith_uint256.h:249-253 | the number modulo 64 bits |
| `Compact.OverflowIsExact` | src/arith_uint256.cpp:238-241 | the three-way overflow test is true if and only if mantissa times 256 to the size less three does not fit in 256 bits |
| `Compact.RoundTrip` | src/arith_uint256.cpp:225-266 | what is read back is the number rounded down by less than one unit of the last byte kept, with the sign given |
| `Compact.RoundTripFits` | src/arith_uint256.cpp:245-266 | the form fits in 32 bits and reads back without overflow |
| `Compact.RoundingIsIdempotent` | src/arith_uint256.cpp:225-266 | a rounded number has the same compact form |
| `Compact.RoundingIsMonotone` | src/arith_uint256.cpp:225-266 | larger numbers have compact forms and rounded values that are no smaller |
| `Compact.SetCompact` | src/arith_uint256.cpp:225-243 | sets mantissa times 256 to the exponent less three, rounded down, modulo 256 bits; negative exactly for a sign on a nonzero number; overflow exactly when it does not fit |
| `Compact.GetCompact` | src/arith_uint256.cpp:245-266 | shifting by whole bytes and moving the mantissa off the sign bit gives the least exponent whose mantissa fits; its two assertions hold |
| `Compact.GetBlockProof` | src/chain.cpp:120-133 | two to the 256th divided by the target plus one, rounded down, for every acceptable target, and zero otherwise |
| `SkipWalk.GetSkipHeight` | src/chain.cpp:69-81 | a skip always leads lower |
| `SkipWalk.SkipHeightIs` | src/chain.cpp:69-81 | from an even height the skip takes the lowest one of the binary form away, from an odd height the two lowest above the unit |
| `SkipWalk.InvertLevel` | src/chain.cpp:69-70 | taking away the lowest one keeps the highest bit in which a height differs from the target, or ends the walk at that level |
| `SkipWalk.OddMoves` | src/chain.cpp:88-105 | from an odd height two ones go in one step, or the walk is nearly there |
| `SkipWalk.EvenMoves` | src/chain.cpp:88-105 | from an even height one goes in one step, or two in two steps by way of the block before, or the level falls |
| `SkipWalk.StepsLevel` | src/chain.cpp:83-107 | the steps are bounded by the ones left at this level and half the bits of each lower one |
| `SkipWalk.StepsBound` | src/chain.cpp:77-107 | among heights of k bits the walk takes at most (k * k + 8 * k) / 4 steps: 117 for 18 bits |
| `Chain.BlockIndex.GetAncestor` | src/chain.cpp:83-107 | with or without skip pointers, the ancestor that single steps reach; the walk ends and never falls off, and where every block has its skip pointer it takes the number of steps that is bounded above |
| `Chain.BlockIndex.BuildSkip` | src/chain.cpp:114-118 | the skip pointer leads to the ancestor at the skip height |
| `Chain.SharedBelow` | src/chain.cpp:11-21 | paths that share a block share everything below it |
| `Chain.ActiveChain.SetTip` | src/chain.cpp:11-21 | after any sequence of calls the array holds the tip's ancestors by height, although the loop stops at the first agreement |
| `Chain.ActiveChain.FindFork` | src/chain.cpp:51-60 | the highest block shared with the chain, and null exactly if there is none |
| `Chain.ActiveChain.StepBack` | src/chain.cpp:36-43 | array and skip walk give the same ancestor |
| `Chain.ActiveChain.GetLocator` | src/chain.cpp:23-49 | blocks of one path from the start to the first block, each one lower than the one before up to entry 10, then 2, 4, 8 and so on lower, but never below the first block, which only the last entry is; no more than twelve and the binary logarithm of the height |
| `Positional.DigitsUnique` | src/base58.cpp:99-109 | without leading zeros there is one way to write a number |
| `Positional.MulAdd` | src/base58.cpp:86-96 | the inner loop multiplies and adds in place, touching only used digits; a number that fits leaves no carry |
| `Positional.Capacity` | src/base58.cpp:82 | comparing two powers once settles the buffer size for every length |
| `Base58.EncodeRoom` | src/base58.cpp:82 | 138/100 digits for each byte always suffice |
| `Base58.DecodeRoom` | src/base58.cpp:35 | 733/1000 bytes for each character always suffice |
| `Base58.EncodeBase58` | src/base58.cpp:72-110 | the text of a byte string: a one for each leading zero, then the number to base 58 without leading zeros; the carry assertion holds |
| `Base58.EncodedMeans` | src/base58.cpp:72-110 | the text has a one for each leading zero byte, goes on with another digit, and stands for the same number to base 58 |
| `Base58.AlphabetIs` | src/base58.cpp:19-20 | the digits are all letters and digits but 0, O, I and l |
| `Base58.ReadDigits` | src/base58.cpp:34-54 | accepts exactly words over the alphabet and converts them; the carry assertion holds |
| `Base58.DecodeBase58` | src/base58.cpp:22-70 | accepts exactly one word between white space, up to the first NUL |
| `Base58.DecodedToNul` | src/base58.cpp:22-24 | nothing after a NUL is looked at |
| `Base58.DecodeEncoded` | src/base58.cpp:22-110 | decoding undoes encoding for every byte string, whatever white space stands around |
| `Base58.EncodeDecoded` | src/base58.cpp:22-110 | whatever is accepted is the encoding of its result between white space |
| `Base58.EncodeBase58Check` | src/base58.cpp:122-129 | the text is that of the bytes with their checksum |
| `Base58.DecodeBase58Check` | src/base58.cpp:131-146 | accepts a text if and only if it decodes to some bytes with their checksum, and gives those bytes |
| `Base58.CheckRoundTrip` | src/base58.cpp:122-146 | what was encoded with its checksum is accepted |
| `RollingBloom.WipeBits` | src/bloom.cpp:361-368 | the mask arithmetic clears a position exactly if it holds the generation to be wiped |
| `RollingBloom.NewGeneration` | src/bloom.cpp:355-370 | starting a generation wipes exactly the positions last hit three generations before |
| `RollingBloom.SetIff` | src/bloom.cpp:389-401 | a position is set if and only if one of the keys of the last three generations hits it |
| `RollingBloom.PositionIs` | src/bloom.cpp:374-379 | the low six bits of a hash give the bit, the others, modulo the number of words, the pair of words |
| `RollingBloom.RollingBloomFilter.constructor` | src/bloom.cpp:321-346 | an empty filter whose generations hold half of the elements configured, rounded up |
| `RollingBloom.RollingBloomFilter.Reset` | src/bloom.cpp:409-417 | forgets every key |
| `RollingBloom.RollingBloomFilter.Wipe` | src/bloom.cpp:364-369 | the pass over the words wipes one generation everywhere and no other |
| `RollingBloom.RollingBloomFilter.Mark` | src/bloom.cpp:374-379 | sets one position to a generation and leaves all others |
| `RollingBloom.RollingBloomFilter.Insert` | src/bloom.cpp:353-381 | every position holds the generation of the last key that hits it, if it is one of the last three |
| `RollingBloom.RollingBloomFilter.Contains` | src/bloom.cpp:389-401 | the answer of a plain filter over the keys of the last three generations; true for each of the last two generations' worth of keys, however keys share positions |
| `CompactBlock.ReadIndexes` | src/blockencodings.h:42-61 | reading differences fails exactly when an index leaves 16 bits |
| `CompactBlock.IndexesAt` | src/blockencodings.h:55-61 | every index read is its difference on from the one before, in 16 bits |
| `CompactBlock.IndexesRoundTrip` | src/blockencodings.h:38-67 | strictly ascending indexes come back as they were |
| `CompactBlock.IndexesAscendIff` | src/blockencodings.h:55-61 | indexes read are ascending, and write back as they were read, if and only if no difference but the last leads to 65535 |
| `CompactBlock.WrappedIndexes` | src/blockencodings.h:55-61 | a message whose indexes are not ascending |
| `CompactBlock.FreeSlots` | src/blockencodings.cpp:60-75 | prefilled transactions at accepted positions leave exactly one free slot for each short id |
| `CompactBlock.PlacedAt` | src/blockencodings.cpp:60-75 | each prefilled transaction is at its position and no other slot is taken |
| `CompactBlock.PositionsRoundTrip` | src/blockencodings.cpp:60-75 | positions sent as differences are the positions that prefilled transactions get |
| `CompactBlock.PartiallyDownloadedBlock.Prefill` | src/blockencodings.cpp:60-75 | fails exactly for a null transaction, a position beyond 16 bits or one that leaves a gap; otherwise each transaction is at its position |
| `CompactBlock.PartiallyDownloadedBlock.MapIds` | src/blockencodings.cpp:82-104 | the i-th short id gets the i-th free slot in 16 bits, the scan never runs off the end, and a repeated short id is detected |
| `CompactBlock.MappedIff` | src/blockencodings.cpp:82-86 | every short id leads to its own slot if and only if no free slot lies beyond position 65535 |
| `CompactBlock.NoFreeSlot` | src/blockencodings.cpp:84-86 | with more prefilled transactions than 16 bits can number, no 16-bit offset leads to a free slot |
| `CompactBlock.LastIdWraps` | src/blockencodings.cpp:82-115 | in a message of 65537 transactions the last short id leads to the prefilled one, which a known transaction replaces |
| `CompactBlock.ScanStep` | src/blockencodings.cpp:110-159 | one more known transaction keeps the account of what each slot holds |
| `CompactBlock.PartiallyDownloadedBlock.Search` | src/blockencodings.cpp:106-165 | the search stops after the first transaction, and no earlier, with which as many slots are filled as there are short ids; the count of filled slots is exact, and stopping early misses no slot |
| `CompactBlock.PartiallyDownloadedBlock.InitData` | src/blockencodings.cpp:50-170 | which messages are invalid, up to 200,000 transactions, and which fail is exact; otherwise, of the transactions looked at, the first that leads to a slot is in it, unless a later one from the pool or with another witness hash leads there too, which leaves it empty; any other slot holds what was prefilled; how many are looked at and the pool count are exact |
| `CompactBlock.PartiallyDownloadedBlock.FillBlock` | src/blockencodings.cpp:178-219 | invalid exactly if too few or too many transactions are given; otherwise each is put in its place, the block is closed, and it is accepted exactly if the check finds it good, failed exactly if it may be corrupt, and refused exactly if it is bad |
| `CompactBlock.MessageDescribes` | src/blockencodings.cpp:20-30 | the message made of a block stands for it |
| `CompactBlock.SlotsAreRight` | src/blockencodings.cpp:106-165 | without ambiguous short ids the slots hold the block's own transactions only, and all of them that were sent or are known |
| `CompactBlock.BlockIsRebuilt` | src/blockencodings.cpp:178-196 | completed with the transactions lacking, in order, the block comes out as it was |
| `CompactBlock.Relay` | src/blockencodings.cpp:20-219 | a block of up to 65536 transactions, sent as a message, started from known transactions and completed with those requested, comes out as it was, exactly the unknown ones are requested, and the status is exactly that of the check |
| `Compressor.VarIntRoundTrip` | src/serialize.h:388-417 | a written number is read back and reading stops where it ended |
| `Compressor.VarIntUnique` | src/serialize.h:388-417 | no other bytes are read as the same number |
| `Compressor.VarIntMeans` | src/serialize.h:366-403 | the bytes stand for the number to base 128, most significant first, with one added in every byte but the last, and the top bit is set in all but the last |
| `Compressor.WriteVarInt` | src/serialize.h:388-403 | the buffer is never overrun and is sent in the right order |
| `Compressor.BufferSuffices` | src/serialize.h:391 | the buffer holds every number of the word size |
| `Compressor.ReadWord` | src/serialize.h:405-417 | fixed-width reading is exact reading modulo the word size |
| `Compressor.AmountRoundTrip` | src/compressor.cpp:142-185 | expanding undoes packing for every amount |
| `Compressor.CodeRoundTrip` | src/compressor.cpp:142-185 | and packing undoes expanding for every code: the code is one-to-one |
| `Compressor.CompressedMeans` | src/compressor.cpp:133-159 | the code of a number, its last digit other than zero and the zeros behind it is 1 + 10 * (9 * number + digit - 1) + zeros, and that of a multiple of 10 to the ninth is 10 times the multiple |
| `Compressor.CompressedBound` | src/compressor.cpp:142-159 | a code is at most ten times its amount, so that every amount of money has a code of 64 bits |
| `Compressor.CompressAmount` | src/compressor.cpp:142-159 | for every 64-bit amount the words hold the code modulo 64 bits, and the last digit is not zero where it is split off |
| `Compressor.DecompressAmount` | src/compressor.cpp:161-185 | for every 64-bit code the words hold the amount modulo 64 bits |
| `Compressor.CompressRoundTrip` | src/compressor.cpp:48-131 | a script with a short form is restored from it, given that valid keys decompress to themselves |
| `Compressor.ShortForms` | src/compressor.cpp:12-77 | exactly four kinds of scripts have a short form: hashes of keys and of scripts in 21 bytes, keys and valid uncompressed keys in 33 |
| `Compressor.ScriptRoundTrip` | src/compressor.h:58-88 | every script up to the size limit is read back, special or not |
| `Compressor.OtherScripts` | src/compressor.h:73-88 | a script over the limit is skipped and a return appended to what was there; one that is cut off is not read |
| `Compressor.CoinRoundTrip` | src/coins.h:58-73 | every unspent coin of up to a tenth of the 64-bit range, at every height, is read back together with what follows it |
| `Compressor.StoredCoins` | src/test/coins_tests.cpp:471-487 | two coins of the documented format, byte by byte |

## Left out

- Best-block hashes of the caches, `GetValueIn` and `HaveInputs`: they add only simple reads on top of the coin map.
- Sibling caches over one parent: a stack has one cache on each layer, as the node uses them.
- `Select_` and `GetChance` of the address manager: a random choice weighted by floating-point numbers.
- The byte layout of the address manager's file: the stream is modelled as its sequence of records, which may end after any of them; byte counts, a bucket cut off in the middle and the outer checksum are not.
- Address groups: bucket hashes are arbitrary functions of address, source and key, so nothing is stated about how groups share buckets.
- `fQuit` of the check queue: nothing in the source sets it, so workers never leave the loop.
- The 32-bit widths of the check queue's counters: they are unbounded here.
- Memory order of the cuckoo cache's atomics: writers are sequential, as its interface demands.
- The rounding of `log2` in the cuckoo cache's `setup` and of the filter-size formula of the rolling filter: both compute in floating point; the depth limit and the number of words are parameters here.
- CuckooCache.SignatureCache.constructor: takes a depth limit of 1 to 31, because a table of two to the 32nd slots has no 32-bit size.
- Elements of the cuckoo cache are numbers that stand for 256-bit keys; other element types of the template are not used by the node.
- LevelDB itself: a database is a map from keys to values, and its iterator steps through the keys it held when it was made.
- Typed reads of a transaction with a type other than the one written (an exception in the program): values are byte strings here.
- Changing a transaction while an iterator over it is in use.
- `CScopedDBTransaction`: it only calls `Commit` or `Clear` once.
- Hexadecimal conversion, `getdouble` and byte serialization of big integers.
- `FindEarliestAtLeast` and `GetBlockProofEquivalentTime`: a library search and a quotient of results proved here.
- 32-bit overflow of the lengths that Base58 multiplies by 138 and 733.
- Base58 addresses and keys (`CBitcoinAddress`, `CBitcoinSecret`): thin layers over the coding.
- RollingBloom.RollingBloomFilter.constructor: requires at least one element, because with none the filter has no words and the first insert or lookup divides by zero.
- The false-positive rate of the rolling filter: a matter of probability.
- CompactBlock.PartiallyDownloadedBlock.InitData: requires a pool that holds no transaction twice, and no short ids beside more than 65535 prefilled transactions, because the search for a free slot does not end then (`CompactBlock.NoFreeSlot`).
- The state in which `InitData` leaves the object when it refuses a message, and the log-only count of extra transactions.
- The bucket limit of the short-id map depends on the hash table's implementation and is an arbitrary predicate here.
- Merkle and consensus checks of a rebuilt block: the verdict is a parameter.
- Writing requested indexes that are not ascending.
- Network, storage, wallet, consensus rules, proof systems, masternodes and user interface.
