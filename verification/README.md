# A model of the Pulsar node's core

Pulsar is a full node for a proof-of-stake currency, descended from Bitcoin and
Peercoin and written in C++.  This project models the parts of it whose
correctness is a property of a whole data structure, a whole run or a whole
exchange, and proves those properties for all inputs.

| file | what it models |
|---|---|
| `Coins.dfy` | the stack of coin caches over the database, against one flat map of unspent coins |
| `AddrBook.dfy`, `AddrOps.dfy`, `AddrAdd.dfy`, `AddrSave.dfy`, `AddrLoad.dfy`, `AddrMan.dfy` | the address manager: its five indexes as values, the operations on them and their exact effects, the on-disk form and its round trip, the reading of arbitrary files, and the class that updates them in place |
| `Miner.dfy` | package selection for a new block |
| `CheckQueue.dfy` | the queue of parallel script checks, as a state machine over its atomic steps |
| `MerkleBlock.dfy`, `MerkleRoot.dfy`, `MerkleSize.dfy` | partial Merkle trees: building, wire form, extraction, the Merkle root row by row, and their size on the wire |
| `CuckooCache.dfy` | the signature cache |
| `Limbs.dfy`, `Arith.dfy`, `ArithUint256.dfy`, `Compact.dfy` | 256-bit arithmetic on 32-bit limbs, compact targets, block proof |
| `Chain.dfy`, `CheckpointSync.dfy` | the block index with skip links, the active chain, synchronised checkpoints |
| `RollingBloom.dfy` | the rolling Bloom filter |
| `Radix.dfy`, `Base58.dfy`, `Bech32.dfy` | the two address encodings |
| `NetFraming.dfy` | message framing between two nodes |
| `BlockEncodings.dfy`, `BlockRelay.dfy` | compact blocks: short ids, slots and request indexes, and a whole exchange |
| `Prelude.dfy`, `Nat.dfy` | shared datatypes and arithmetic |

Objects that the source updates in place are classes with loops and
invariants.  Each such method is tied to a function of the old state, or states
outright what the source promises, and the laws are lemmas about those
functions.  Hash functions, clocks, random draws, the socket, signatures and the
database are parameters or free choices.

Where comments and code differ the model follows the code:

* A partial Merkle tree can need more than two bits per hash less one.
  `MerkleBlock.BitBound` gives the exact condition for the bound of
  `src/merkleblock.h:47`, and `MerkleBlock.BitBoundFails` an exception with 5 bits for 2 hashes.
  The bound on the size, `src/merkleblock.h:31`, fails for the same reason in trees with
  enough hashes: `MerkleSize.SizeBound` gives the exact condition and
  `MerkleSize.SizeFails` an exception, 1025 matched transactions.
* The first displacement of the cuckoo cache goes to the second place of the
  element, not the first (`src/cuckoocache.h:419-430`).
* The assembler's figures for modified entries are upper bounds: an entry that is
  inserted again starts from its full totals (`src/miner.cpp:333-339`).
* Multiplying a 256-bit number by itself through the same object gives zero,
  because the receiver is cleared before the operand is read (`src/arith_uint256.cpp:70-83`).
* The reader of request indexes keeps its offset in 16 bits, so it accepts an index
  after 65535; `BlockEncodings.ReadIncreasing` says exactly for which distances what it
  reads is increasing, and `BlockEncodings.OffsetWraps` shows a case where it is not.
* Slot numbers of a compact block are kept in 16 bits, and a block may have up to
  100000 transactions.  `BlockEncodings.SixteenBits` says exactly when the numbers are
  enough, and `BlockRelay.SlotWraps` shows what happens otherwise.
* The search for an unfilled slot uses a 16-bit offset.  `BlockEncodings.SearchEnds` says
  exactly when it ends, and `BlockEncodings.EndlessExample` gives a message for which it
  does not.
* Missing transactions are asked for by 16-bit index.  `BlockRelay.RequestExact` says
  exactly when the request names them, `BlockRelay.RequestWraps` shows a request that
  does not, and `BlockRelay.Relay` that no block of more than 65536 transactions is
  rebuilt unless it repeats its first transaction.
* A file of addresses that was not written by the node itself may hold two records for
  one network address, which the reader does not notice.  `AddrLoad.LoadConsistent` says
  exactly when the tables read are consistent, and `AddrLoad.TwinsBreak` gives a file
  for which they are not.

## Model

| member | source | states |
|---|---|---|
| `Coins.ViewUnspent` | src/coins.h:128-145 | through any stack of caches over a database of unspent coins, no spent coin can be seen |
| `Coins.FetchedSameView` | src/coins.cpp:40-55 | pulling a coin into a cache changes no view and keeps the flags truthful |
| `Coins.AddedSoundIff` | src/coins.cpp:66-85 | without the overwrite flag, adding a coin keeps the DIRTY and FRESH flags truthful exactly when the entry was DIRTY or no unspent coin lies below |
| `Coins.AddedRefines` | src/coins.cpp:66-85 | a caller that keeps the possible_overwrite promise never meets the logic_error and gets a plain map update |
| `Coins.SpentRefines` | src/coins.cpp:98-112 | spending through a cache removes the coin from the flat map, whether the entry is dropped or marked |
| `Coins.UncachedSameView` | src/coins.cpp:210-217 | dropping an entry without flags is invisible |
| `Coins.MergedEntryIs` | src/coins.cpp:145-201 | what one dirty entry of a batch makes of the entry of the parent: forgotten exactly when spent and unknown below, otherwise kept as dirty, and fresh exactly when unknown below |
| `Coins.MergedOne` | src/coins.cpp:145-201 | entries of a batch are handled independently, so the order in which they come does not matter |
| `Coins.MergedRefines` | src/coins.cpp:145-201 | writing a truthful child into a truthful parent raises no logic_error, stays truthful and gives the view the child had |
| `Coins.WrittenRefines` | src/txdb.cpp:84-119 | the database after a batch is the view the cache had |
| `Coins.ReplaceLayerSound` | src/coins.cpp:40-55 | rewriting a lower layer without changing its own view is invisible at every level above |
| `Coins.FlushTop` | src/coins.cpp:203-208 | flushing the top cache into the one below leaves every view but the one below unchanged and raises no logic_error |
| `Coins.FlushLast` | src/coins.cpp:203-208 | flushing the only cache into the database leaves the flat map unchanged |
| `Coins.CoinsStack.FetchCoin` | src/coins.cpp:40-55 | finds exactly the coin of the flat view at that level; all views stay as they were |
| `Coins.CoinsStack.BaseGetCoin` | src/coins.cpp:57-64 | a lookup in the level below answers from its flat view |
| `Coins.CoinsStack.GetCoin` | src/coins.cpp:57-64 | true exactly when the flat view has the coin, which is then returned |
| `Coins.CoinsStack.HaveCoin` | src/coins.cpp:125-128 | true exactly when the flat view has the coin |
| `Coins.CoinsStack.AddCoin` | src/coins.cpp:66-85 | succeeds exactly when the entry rules allow it, and on failure changes nothing |
| `Coins.RefAddAllIs` | src/coins.cpp:87-96 | adding outputs one after the other puts under each outpoint of the transaction its own coin, and changes no other outpoint |
| `Coins.CoinsStack.AddCoins` | src/coins.cpp:87-96 | no logic_error; the top view holds each spendable output of the transaction under its number, built from height, kind and time, and is otherwise as before, as are all lower views |
| `Coins.CoinsStack.SpendCoin` | src/coins.cpp:98-112 | removes the coin from the flat map and says exactly when it answers true |
| `Coins.CoinsStack.Uncache` | src/coins.cpp:210-217 | no view changes; the entry goes exactly when it has no flag |
| `Coins.CoinsStack.BatchWrite` | src/coins.cpp:145-201 | fails exactly on an entry that contradicts the parent; otherwise leaves the merged cache whatever the order |
| `Coins.CoinsStack.Flush` | src/coins.cpp:203-208 | always succeeds on a truthful stack and changes nothing a caller can see |
| `Coins.CoinsStack.Run` | src/coins.cpp:40-217 | any run of operations on the top of any stack, with pushes, flushes and drops, is observation by observation the run on flat maps, where every addition and every flush succeeds: no logic_error is met |
| `AddrBook.CreateKeeps` | src/addrman.cpp:81-91 | a created entry enters every index; it is the only one not yet counted or referenced |
| `AddrBook.SwapRandomKeeps` | src/addrman.cpp:93-111 | swapping two random positions keeps vRandom and the stored positions inverse to each other |
| `AddrBook.DeleteKeeps` | src/addrman.cpp:113-125 | deleting an unreferenced new entry keeps the whole invariant |
| `AddrBook.ClearNewKeeps` | src/addrman.cpp:127-140 | emptying a new slot keeps the whole invariant, deleting the entry when its last reference goes |
| `AddrBook.UnlinkAll` | src/addrman.cpp:142-155 | walking all new buckets finds every slot of an entry, so its reference count ends at zero |
| `AddrOps.TerribleIs` | src/addrman.cpp:29-47 | spared within a minute of a try; otherwise terrible exactly for one of the five reasons, with their limits |
| `AddrOps.MakeTriedKeeps` | src/addrman.cpp:142-188 | promotion keeps the whole invariant and the entry is tried afterwards |
| `AddrOps.MakeTriedMoves` | src/addrman.cpp:142-188 | the entry takes its tried slot and leaves the new table; the former occupant falls back to exactly one new slot; nobody else is touched |
| `AddrOps.GoodKeeps` | src/addrman.cpp:190-240 | marking an address good keeps the whole invariant; a known address becomes tried, with the time given as last success and last try and no failed attempts |
| `AddrOps.AddKeeps` | src/addrman.cpp:242-313 | adding an address keeps the whole invariant |
| `AddrOps.AddKnows` | src/addrman.cpp:242-313 | an address is known afterwards exactly when it was before or its slot was free, terrible or held by an entry with other references |
| `AddrAdd.ClearedHolder` | src/addrman.cpp:127-140 | the holder of a cleared slot loses a reference, and goes with the last |
| `AddrAdd.PlaceIs` | src/addrman.cpp:286-311 | the entry takes the slot, or nothing changes, or it goes for want of any slot; only it and the former holder are affected |
| `AddrAdd.AddKnown` | src/addrman.cpp:256-312 | for a known address: joined service bits, exactly when the time is renewed and to what, exactly when one more slot is taken, and no other entry changes but the displaced one |
| `AddrAdd.AddUnknown` | src/addrman.cpp:279-312 | for an unknown address: the record with reduced time, given source and clean statistics, exactly when its slot can be taken; no other entry changes but the displaced one |
| `AddrAdd.GoodIs` | src/addrman.cpp:190-240 | without an entry of exactly this address and port nothing changes; otherwise times and attempts of that entry, its tried slot, the fallen-back occupant, and that all others stay |
| `AddrAdd.AttemptIs` | src/addrman.cpp:315-335 | last try, and a failure counted exactly when asked for and not counted since the last success elsewhere; nothing else changes |
| `AddrAdd.ConnectedIs` | src/addrman.cpp:483-501 | the time is renewed exactly when more than twenty minutes old; nothing else changes |
| `AddrAdd.SetServicesIs` | src/addrman.cpp:503-519 | the service bits are replaced; nothing else changes |
| `AddrOps.StatsOnlyKeep` | src/addrman.cpp:315-335 | attempts, connections and service updates keep the whole invariant |
| `AddrOps.WorthyDistinct` | src/addrman.cpp:462-481 | no address is handed out twice |
| `AddrOps.EveryRunConsistent` | src/addrman.cpp:60-380 | after every run of public operations from empty tables the whole invariant holds |
| `AddrOps.CheckIs` | src/addrman.cpp:385-459 | on tables that satisfy the invariant the consistency check of the source can only object to a null key |
| `AddrOps.EveryRunPasses` | src/addrman.cpp:385-459 | after every run of public operations the consistency check passes exactly when the key is not null |
| `AddrSave.OrderLengths` | src/addrman.h:301-348 | the two counters are the numbers of records written, so the assertions while writing hold |
| `AddrSave.IndexIsPosition` | src/addrman.h:301-348 | the running number written for a bucket entry is its position in the list of new records |
| `AddrSave.WithinLimits` | src/addrman.h:371-377 | consistent tables never exceed the limits that reading enforces |
| `AddrSave.NothingToPrune` | src/addrman.h:438-448 | tables in which every new entry is referenced lose nothing to the final pruning |
| `AddrSave.RoundTrip` | src/addrman.h:301-454 | reading back what was written from a consistent state gives the same entries, slots and counters with ids renumbered in written order, and a consistent state |
| `AddrLoad.FilledReads` | src/addrman.h:380-436 | whatever the file, before pruning each record read is an entry under its position, in slots it hashes to, with exact reference counts and counters |
| `AddrLoad.PruneIs` | src/addrman.h:438-448 | pruning removes exactly the new entries without a slot, and the addresses of those from the map, whoever else has them |
| `AddrLoad.LoadConsistent` | src/addrman.h:350-454 | for any file the tables read are consistent exactly when each record kept has a plausible success time and an address that no other record read has |
| `AddrLoad.DistinctFileLoads` | src/addrman.h:350-454 | a file without two records for one address and with plausible success times is read soundly |
| `AddrLoad.TwinsBreak` | src/addrman.h:380-417 | two kept records for one address leave the tables inconsistent |
| `AddrManager.AddrMan.constructor` | src/addrman.h:456-478 | a new manager has empty, consistent tables |
| `AddrManager.AddrMan.Find` | src/addrman.cpp:68-79 | finds the entry of an address through the address index |
| `AddrManager.AddrMan.Create` | src/addrman.cpp:81-91 | the tables become those of the specification with the next id |
| `AddrManager.AddrMan.SwapRandom` | src/addrman.cpp:93-111 | the tables become those of the specification; the assertions are its precondition |
| `AddrManager.AddrMan.Delete` | src/addrman.cpp:113-125 | the tables become those of the specification; the assertions are its precondition |
| `AddrManager.AddrMan.ClearNew` | src/addrman.cpp:127-140 | the slot is empty and the tables are those of the specification |
| `AddrManager.AddrMan.MakeTried` | src/addrman.cpp:142-188 | every assertion on the way holds and the tables are those of the specification |
| `AddrManager.AddrMan.FindBucket` | src/addrman.cpp:219-229 | a consistent new entry is always in some bucket, so the search cannot fail |
| `AddrManager.AddrMan.Good` | src/addrman.cpp:190-240 | the result of the specification whatever the random starting bucket; the invariant is kept |
| `AddrManager.AddrMan.Add` | src/addrman.cpp:242-313 | true exactly for a routable address not known before; the tables are those described by AddKnown and AddUnknown |
| `AddrManager.AddrMan.Refresh` | src/addrman.cpp:256-283 | for a known address, the new time and services, and exactly when a further reference is tried |
| `AddrManager.AddrMan.PlaceEntry` | src/addrman.cpp:291-312 | a slot for the entry, or its deletion when it has no reference at all |
| `AddrManager.AddrMan.Attempt` | src/addrman.cpp:315-335 | counts an attempt once per success of any peer; the invariant is kept |
| `AddrManager.AddrMan.Connected` | src/addrman.cpp:483-501 | refreshes the time only when it is more than twenty minutes old; the invariant is kept |
| `AddrManager.AddrMan.SetServices` | src/addrman.cpp:503-519 | only the service bits change; the invariant is kept |
| `AddrManager.AddrMan.GetAddr` | src/addrman.cpp:462-481 | at most 23 percent and at most 2500 good addresses, each once, and all good ones when that is fewer; the entries are only reordered |
| `AddrManager.AddrMan.Serialize` | src/addrman.h:301-348 | writes exactly the saved form of the tables |
| `AddrManager.AddrMan.Unserialize` | src/addrman.h:350-454 | refuses exactly a wrong key size or too many records; otherwise the tables are those read from the saved form |
| `AddrManager.AddrMan.LoadFrom` | src/addrman.h:301-454 | loading what another manager saved gives its tables back, renumbered, and a consistent manager |
| `Miner.FewerAncestors` | src/miner.h:84-91 | an ancestor has fewer ancestors, so sorting by their number is a valid order |
| `Miner.ParentsFirst` | src/miner.cpp:362-370 | in a package sorted by ancestor count the missing ancestors of each transaction stand before it |
| `Miner.UpdatedBound` | src/miner.h:113-125 | subtracting selected ancestors keeps size and signature operations at or above what the package still needs |
| `Miner.UpdatedKeeps` | src/miner.cpp:322-346 | after an update every modified entry covers its package |
| `Miner.ExactUpdated` | src/miner.cpp:322-346 | exact figures stay exact when selected ancestors are taken off |
| `Miner.PreciseAfter` | src/miner.cpp:322-346 | after a selection the figures of every modified entry that has never failed are exactly what its package still needs |
| `Miner.FailingMore` | src/miner.cpp:447-462 | a candidate that fails has not failed before since the last selection |
| `Miner.FailuresFit` | src/miner.cpp:456-462 | the failures since the last selection are no more than the pool has transactions |
| `Miner.AccountedUpdates` | src/miner.cpp:322-346 | accounting for one transaction after another equals accounting for the package at once |
| `Miner.CachedExact` | src/miner.cpp:440-441 | for an entry never touched by a selection the cached totals are exact |
| `Miner.StaysWithin` | src/miner.cpp:277-284 | what passes the test stays within weight and signature limits once its real figures are added |
| `Miner.UntouchedAfter` | src/miner.cpp:322-346 | after a selection, entries outside the modified and failed sets still have no selected ancestor |
| `Miner.BlockAssembler.constructor` | src/miner.cpp:68-94 | the weight limit is clamped between 4000 and the maximum less 4000; the block is empty |
| `Miner.BlockAssembler.AddToBlock` | src/miner.cpp:304-317 | the transaction is appended; totals stay those of the block |
| `Miner.BlockAssembler.SortForBlock` | src/miner.cpp:362-370 | a permutation of the package in order of ancestor count |
| `Miner.BlockAssembler.UpdatePackagesForAdded` | src/miner.cpp:322-346 | no unsigned figure wraps, and the modified set is the one specified |
| `Miner.BlockAssembler.AddPackage` | src/miner.cpp:486-494 | the package joins the block behind its ancestors, each transaction once |
| `Miner.BlockAssembler.NextCandidate` | src/miner.cpp:402-445 | the candidate is unselected and its figures cover its package, exactly so unless it has failed before |
| `Miner.BlockAssembler.SelectPackage` | src/miner.cpp:447-499 | a package that does not fit leaves the block alone; one that fits keeps block, limits and bookkeeping right |
| `Miner.BlockAssembler.Round` | src/miner.cpp:396-499 | one round passes over an index entry or considers a candidate; the failures counted are those listed, and it gives up exactly after more than 1000 of them near the limit |
| `Miner.BlockAssembler.AddPackageTxs` | src/miner.cpp:382-501 | selection terminates for every order of candidates; the block has no duplicates, every transaction follows its in-mempool ancestors, and both limits hold; it gives up exactly near the weight limit after more than 1000 different candidates in a row that are too large, so never with a smaller pool; otherwise whatever is left out would exceed a limit with its ancestors or has an ineligible one among them |
| `Miner.BlockAssembler.Consider` | src/miner.cpp:447-481 | a candidate is selected, or it is turned down and stays so as the block grows |
| `CheckQueue.StepKeeps` | src/checkqueue.h:66-124 | every atomic step of any thread keeps the invariant |
| `CheckQueue.EveryInterleaving` | src/checkqueue.h:66-158 | over every interleaving nTodo equals queued plus in-flight checks, and each Wait returned true exactly when all checks added since the one before pass |
| `CheckQueue.SleepingMasterHasWorker` | src/checkqueue.h:88-101 | a master asleep without a notification has a worker with an unfinished batch |
| `CheckQueue.LastMergeNotifies` | src/checkqueue.h:77-82 | the worker that merges the last batch notifies a sleeping master |
| `CheckQueue.NotifiedMasterReturns` | src/checkqueue.h:88-101 | a notified master returns at once with the verdict on everything it added |
| `CheckQueue.WorkShrinks` | src/checkqueue.h:107-122 | running a check or merging a batch strictly reduces the work left |
| `CheckQueue.StepWork` | src/checkqueue.h:66-124 | no step but adding raises the work left |
| `CheckQueue.SleepingNotQuiet` | src/checkqueue.h:88-101 | while a master sleeps without a notification some check can be run or some batch merged |
| `CheckQueue.WaitEnds` | src/checkqueue.h:66-150 | from any point of any run, as long as nothing is added, at most as many checks are run and batches merged as there is work left, and whenever none is left to run or merge a master inside Wait is notified and returns the verdict on all it added |
| `CheckQueue.ReturnKeeps` | src/checkqueue.h:89-97 | when nothing is left to do everything added has been merged and the queue is ready for the next round |
| `CheckQueue.BatchIs` | src/checkqueue.h:103-116 | a batch is the largest within the limit and a fair share of the queue, or one check, taken from the end newest first |
| `CheckQueue.AddNotifies` | src/checkqueue.h:146-158 | adding several checks notifies every waiting worker, adding one the chosen one, and nobody else |
| `MerkleBlock.TreeHeight` | src/merkleblock.cpp:121-124 | the loop finds the least height with one node |
| `MerkleBlock.NodeExists` | src/merkleblock.h:66-68 | a node exists exactly when its first leaf does |
| `MerkleBlock.ExtractBuilt` | src/merkleblock.cpp:60-114 | reading a built node back, wherever its bits and hashes stand, gives its hash and its matches and consumes exactly them |
| `MerkleBlock.BitsOfHashes` | src/merkleblock.cpp:60-76 | the number of bits is twice the hashes, less one, plus the inner nodes with a single child |
| `MerkleBlock.HashesByLeaves` | src/merkleblock.cpp:60-76 | never more hashes than transactions |
| `MerkleBlock.HashesByMatches` | src/merkleblock.cpp:60-76 | at most one hash plus one per level for each match |
| `MerkleBlock.BitBound` | src/merkleblock.h:36-48 | the bound of two bits per hash less one holds exactly when no match lies under a node without a sibling |
| `MerkleBlock.BitBoundFails` | src/merkleblock.h:47-48 | five transactions with the last one matched need 5 bits for 2 hashes |
| `MerkleBlock.SinglesAreLonely` | src/merkleblock.cpp:60-76 | the inner nodes with a single child are one for each level at which a match lies under a node without a sibling |
| `MerkleSize.HashCountIs` | src/merkleblock.cpp:60-76 | the number of hashes depends on the match bits alone |
| `MerkleSize.SizeBound` | src/merkleblock.h:28-49 | for every block the promised size holds exactly when the bits take fewer than 253 bytes or those levels fit into the last byte of them |
| `MerkleSize.SizeFails` | src/merkleblock.h:28-49 | 1025 transactions, all matched, take 33068 bytes where 33067 are promised |
| `MerkleBlock.DistinctHaveNoTwins` | src/merkleblock.cpp:103-107 | distinct transaction ids and a collision-free hash never trigger the duplicate check |
| `MerkleBlock.ExtractSound` | src/merkleblock.cpp:78-114 | a reading that arrives at the true hash of a node reports only transactions that are under it, at their indexes |
| `MerkleBlock.RoundTrip` | src/merkleblock.cpp:116-163 | building, padding to bytes and extracting gives the root and exactly the matches with indexes, and fails exactly when a duplicate is hit |
| `MerkleBlock.RoundTripSucceeds` | src/merkleblock.cpp:116-163 | with distinct ids and a collision-free hash it always succeeds |
| `MerkleBlock.TrueRootIsSound` | src/merkleblock.cpp:132-163 | whatever bits and hashes are sent, if they give the true root every reported pair of id and index is right |
| `MerkleRoot.RowIs` | src/merkleblock.cpp:40-58 | the hashes of the nodes at a height are the row obtained by joining neighbours that often |
| `MerkleRoot.RootIs` | src/merkleblock.cpp:40-58 | the top of the tree is the Merkle root obtained row by row |
| `MerkleRoot.NothingLeftOver` | src/merkleblock.cpp:132-163 | a root is only given for a plausible message all of whose hashes and bits are consumed |
| `MerkleRoot.RoundTripRoot` | src/merkleblock.cpp:116-163 | the exchange gives the Merkle root obtained row by row |
| `MerkleBlock.PaddedSize` | src/merkleblock.h:88-105 | padding adds less than a byte and does not change the number of bytes |
| `MerkleBlock.PackBits` | src/merkleblock.h:100-102 | each bit stands at its place in the bytes and the padding is zero |
| `MerkleBlock.UnpackBits` | src/merkleblock.h:95-97 | the bits read are those of the bytes |
| `MerkleBlock.PartialMerkleTree.constructor` | src/merkleblock.cpp:116-128 | bits and hashes are those of the whole tree |
| `MerkleBlock.PartialMerkleTree.TraverseAndBuild` | src/merkleblock.cpp:60-76 | appends exactly the bits and hashes of a node |
| `MerkleBlock.PartialMerkleTree.TraverseAndExtract` | src/merkleblock.cpp:78-114 | consumes and returns exactly what the specification of extraction does; fBad records anything wrong |
| `MerkleBlock.PartialMerkleTree.ExtractMatches` | src/merkleblock.cpp:132-163 | the root, or zero when anything is wrong, with ids and indexes of the matches |
| `MerkleBlock.PartialMerkleTree.ReadFrom` | src/merkleblock.h:88-105 | reads what another tree wrote, with the bits padded to whole bytes |
| `CuckooCache.ComputeHashes` | src/cuckoocache.h:243-253 | all eight places lie in the table; each is the hash scaled to the table size, rounded down |
| `CuckooCache.Cache.constructor` | src/cuckoocache.h:340-353 | sizes, epoch size and counter; every slot is blank, marked for collection and of no epoch |
| `CuckooCache.Cache.EpochCheck` | src/cuckoocache.h:289-321 | exactly when the epoch ages and what the counter becomes, and room for one more entry under the epoch limit |
| `CuckooCache.Cache.Age` | src/cuckoocache.h:305-310 | old entries become collectable and no entry is left in the current epoch |
| `CuckooCache.Cache.Contains` | src/cuckoocache.h:467-477 | true exactly when a place of the element holds it, which is so for every stored element; erasing marks one such slot |
| `CuckooCache.Cache.Refresh` | src/cuckoocache.h:397-405 | an element already there is kept and moved to the current epoch; nothing else changes |
| `CuckooCache.Cache.Settle` | src/cuckoocache.h:408-415 | the element takes over a free slot and one element is gone |
| `CuckooCache.Cache.Kick` | src/cuckoocache.h:430-435 | element and epoch change places with those of an occupied slot |
| `CuckooCache.ChainGrows` | src/cuckoocache.h:430-435 | one more displacement: the next element is the one that stood where its predecessor went |
| `CuckooCache.Cache.KickNext` | src/cuckoocache.h:406-440 | the element in hand, with no marked place, goes to the place after the one it lost |
| `CuckooCache.Cache.SettleLast` | src/cuckoocache.h:408-415 | the element in hand takes the first of its marked places |
| `CuckooCache.Cache.Displace` | src/cuckoocache.h:406-440 | the whole chain: it starts with the new element going to its second place, each next one is what stood where its predecessor went and goes to its own next place, none of them had a marked place, and it ends at the first marked place or exactly at the depth limit; tables and flags afterwards are exact |
| `CuckooCache.Cache.Insert` | src/cuckoocache.h:392-440 | the table is unchanged when the element is there, otherwise the chain from the tables as the epoch check leaves them; an element with a marked place is stored in such a place; it is found afterwards unless it was itself dropped at the depth limit; live entries never exceed the epoch size plus a sixteenth |
| `ArithUint256.Uint256.FromWord` | src/arith_uint256.h:55-63 | holds the 64-bit number |
| `ArithUint256.Uint256.AssignWord` | src/arith_uint256.h:94-101 | holds the 64-bit number |
| `ArithUint256.Uint256.AddAssign` | src/arith_uint256.h:141-151 | the sum modulo 2^256, also when the operand is the receiver |
| `ArithUint256.Uint256.Complement` | src/arith_uint256.h:75-81 | 2^256 less one less the number |
| `ArithUint256.Uint256.Negate` | src/arith_uint256.h:83-90 | the number that adds to zero modulo 2^256 |
| `ArithUint256.Uint256.SubAssign` | src/arith_uint256.h:153-157 | the difference modulo 2^256, exact when it is not negative |
| `ArithUint256.Uint256.Increment` | src/arith_uint256.h:179-186 | one more, modulo 2^256 |
| `ArithUint256.Uint256.CompareTo` | src/arith_uint256.cpp:112-121 | the order of the numbers, in all three cases |
| `ArithUint256.Uint256.MulWord` | src/arith_uint256.cpp:58-67 | the product with a word modulo 2^256 |
| `ArithUint256.Uint256.MulAssign` | src/arith_uint256.cpp:70-83 | the product modulo 2^256, or zero when the operand is the receiver |
| `ArithUint256.Uint256.ShlAssign` | src/arith_uint256.cpp:24-38 | the number times a power of two modulo 2^256, for every shift |
| `ArithUint256.Uint256.ShrAssign` | src/arith_uint256.cpp:41-55 | the number divided by a power of two, for every shift |
| `ArithUint256.Uint256.DivAssign` | src/arith_uint256.cpp:86-109 | the quotient rounded down; refused exactly for a zero divisor |
| `ArithUint256.Uint256.Bits` | src/arith_uint256.cpp:174-186 | the number of binary digits |
| `ArithUint256.Uint256.GetLow64` | src/arith_uint256.h:251-255 | the number modulo 2^64 |
| `Compact.SetCompact` | src/arith_uint256.cpp:206-224 | the number meant modulo 2^256; the overflow flag exactly when it does not fit, the sign flag exactly for a non-zero mantissa with the sign bit |
| `Compact.GetCompact` | src/arith_uint256.cpp:226-247 | the canonical byte count and mantissa; both assertions hold |
| `Compact.OverflowExact` | src/arith_uint256.cpp:219-222 | the three size tests say exactly that the number reaches 2^256 |
| `Compact.Canonical` | src/arith_uint256.cpp:226-247 | a mantissa has between 15 and 23 bits and is the number scaled to its byte count |
| `Compact.RoundsDown` | src/arith_uint256.cpp:206-247 | encoding and decoding goes down by at most one part in 2^15 |
| `Compact.RoundedStable` | src/arith_uint256.cpp:206-247 | a rounded number has the same compact form |
| `Compact.RoundedMonotone` | src/arith_uint256.cpp:206-247 | rounding preserves order |
| `Compact.CompactRoundTrip` | src/arith_uint256.cpp:206-247 | the compact form of every 256-bit number decodes without a flag to a number no larger, within one part in 2^15, that encodes to the same form |
| `Compact.TargetBelow` | src/chain.cpp:152-165 | a target that fits leaves room for one more, so adding one does not wrap |
| `Compact.ProofFormula` | src/chain.cpp:160-165 | the complement divided by target plus one, plus one, is 2^256 divided by target plus one, without wrapping |
| `Compact.GetBlockProof` | src/chain.cpp:152-165 | zero for a zero, negative or overflowing target; otherwise 2^256 divided by target plus one for stake blocks and one for others |
| `Chain.GetSkipHeight` | src/chain.cpp:76-87 | a skip link leads strictly down |
| `Chain.WalkTurn` | src/chain.cpp:89-114 | going down skip links, one turn or two lose a one of the height, or one turn fixes a digit of it for good |
| `Chain.StepsBound` | src/chain.cpp:89-114 | between any two heights there are at most two steps for each one of the upper and 2 k + 2 for each digit that differs |
| `Chain.FewSteps` | src/chain.cpp:76-114 | the walk between any two heights takes a number of steps quadratic in the number of binary digits |
| `Chain.BlockIndex.GetAncestor` | src/chain.cpp:89-114 | the block that the plain parent walk reaches, or null outside the range; it terminates, and where skip links are set in at most 2 d (d + 2) steps for a height of d binary digits |
| `Chain.BlockIndex.BuildSkip` | src/chain.cpp:121-125 | the skip link is the ancestor at the skip height |
| `Chain.BlockTree.AddToBlockIndex` | src/validation.cpp:2869-2890 | a block already known is returned as it is; a new one gets its parent and skip link, so every index built block by block has right skip links |
| `Chain.CChain.NextIsChild` | src/chain.h:564-569 | the successor is a child in the chain, and only the tip has none |
| `Chain.CChain.SetTip` | src/chain.cpp:17-27 | the chain is the whole branch of the tip although the loop stops early |
| `Chain.CChain.FindFork` | src/chain.cpp:57-66 | the highest block of the branch in the chain: at every height the two agree exactly up to it |
| `Chain.CChain.GetLocator` | src/chain.cpp:29-55 | ancestors in strictly descending height down to the root, the first twelve without a gap, then at distances that double; their number is logarithmic in the height |
| `Chain.LastCommonAncestor` | src/chain.cpp:194-209 | the highest shared block: at every height the branches agree exactly up to it, and null when they share none |
| `CheckpointSync.TraceBack` | src/checkpointsync.cpp:108-111 | the walk down parents ends at the ancestor of that height without meeting a null link |
| `CheckpointSync.SyncCheckpoints.AddBlock` | src/validation.cpp:2869-2890 | a block whose parent is known enters the index; the checkpoints stay as they are |
| `CheckpointSync.SyncCheckpoints.ValidateSyncCheckpoint` | src/checkpointsync.cpp:93-133 | accepts exactly known blocks above the current checkpoint, and records exactly known blocks on another branch as invalid |
| `CheckpointSync.SyncCheckpoints.WriteSyncCheckpoint` | src/checkpointsync.cpp:135-146 | any checkpoint takes over exactly when it is written |
| `CheckpointSync.SyncCheckpoints.Advance` | src/checkpointsync.cpp:135-146 | a newer checkpoint that is written lies above all before it since the last reset |
| `CheckpointSync.SyncCheckpoints.ResetSyncCheckpoint` | src/checkpointsync.cpp:243-274 | back to the hardened checkpoint if it is on the active chain, else to the first block; an unknown one is kept for later |
| `CheckpointSync.SyncCheckpoints.ProcessSyncCheckpoint` | src/checkpointsync.cpp:382-429 | what each of the four state variables becomes; the new checkpoint is a proper descendant of the old |
| `CheckpointSync.SyncCheckpoints.AcceptPendingSyncCheckpoint` | src/checkpointsync.cpp:160-198 | a pending checkpoint is accepted exactly when newer and written, forgotten when refused, and recorded as invalid exactly when it is on another branch |
| `CheckpointSync.SyncCheckpoints.Deliver` | src/checkpointsync.cpp:382-429 | messages naming known blocks of one branch, in any order and with repetitions, end at the highest of them |
| `RollingBloom.PutMarkAt` | src/bloom.cpp:268-275 | storing a generation number at a position changes that position only |
| `RollingBloom.WipedBit` | src/bloom.cpp:256-264 | the wipe mask keeps a bit unless both words agree with the generation there |
| `RollingBloom.WipeAll` | src/bloom.cpp:258-264 | clears exactly the positions of one generation |
| `RollingBloom.ExactWiped` | src/bloom.cpp:250-265 | after the wipe every position shows the latest of the two generations left, and nothing else is marked |
| `RollingBloom.ExactMarked` | src/bloom.cpp:268-275 | marking a key enters it in the current generation and changes nothing else |
| `RollingBloom.RollingBloomFilter.constructor` | src/bloom.cpp:216-241 | an empty filter with half the elements, rounded up, per generation; usable exactly when it is made for some elements and has positions |
| `RollingBloom.RollingBloomFilter.MarkedIsTouched` | src/bloom.cpp:284-296 | a position is marked exactly when it belongs to a key of this or the two previous generations |
| `RollingBloom.RollingBloomFilter.Contains` | src/bloom.cpp:284-296 | true exactly when each position of the key belongs to some key of this or the two previous generations: all those keys are found, and in an empty filter none |
| `RollingBloom.RollingBloomFilter.Advance` | src/bloom.cpp:250-265 | the oldest generation is forgotten, mark by mark, and the others stay exactly as they were |
| `RollingBloom.RollingBloomFilter.Insert` | src/bloom.cpp:248-276 | the key joins the current generation, after a new one is started exactly when this one is full; every position shows exactly the latest generation it belongs to |
| `RollingBloom.RollingBloomFilter.Recall` | src/bloom.h:113-114 | each of the last 2 * nEntriesPerGeneration + nEntriesThisGeneration keys of any run of inserts is reported |
| `RollingBloom.RollingBloomFilter.Reset` | src/bloom.cpp:304-312 | an empty history and nothing marked |
| `Radix.ConvertBack` | src/base58.cpp:24-112 | converting digits to another base and back, leading zeros included, gives the digits one started from |
| `Radix.BufferSuffices` | src/base58.cpp:84-85 | a buffer of n * p / q + 1 digits is enough for every n as soon as a^q < b^p |
| `Base58.EncodeBuffer` | src/base58.cpp:84-85 | 138 digits for every 100 bytes, plus one, are enough for every length |
| `Base58.DecodeBuffer` | src/base58.cpp:37-38 | 733 bytes for every 1000 digits, plus one, are enough for every length |
| `Base58.MulAdd` | src/base58.cpp:86-100 | multiplies the number in the buffer and adds a digit, up to the carry out of it |
| `Base58.Significant` | src/base58.cpp:101-104 | from the first non-zero digit on, the digits of the number without leading zeros |
| `Base58.EncodeBase58` | src/base58.cpp:74-112 | the encoding of the specification; the carry is zero at the assertion for every input |
| `Base58.DecodeBase58` | src/base58.cpp:24-72 | accepts exactly strings that are Base58 apart from outer white space; the carry is zero at the assertion for every input |
| `Base58.DecodeEncoded` | src/base58.cpp:24-112 | every byte string is read back |
| `Base58.EncodeDecoded` | src/base58.cpp:24-112 | every accepted string is written back without its outer white space |
| `Base58.EncodedLetter` | src/base58.cpp:24-112 | the byte 0x61 is written as 2g |
| `Base58.EncodeBase58Check` | src/base58.cpp:124-131 | the encoding of the bytes followed by their check bytes |
| `Base58.DecodeBase58Check` | src/base58.cpp:133-149 | accepts exactly the strings the encoder writes, apart from outer white space, and returns what was encoded |
| `Bech32.GeneratorConstants` | src/bech32.cpp:86-91 | the groups of the model pack to the constants of the code |
| `Bech32.StepAdds` | src/bech32.cpp:80-91 | the checksum register is linear |
| `Bech32.StepZero` | src/bech32.cpp:80-91 | a non-zero register stays non-zero |
| `Bech32.PolyMod` | src/bech32.cpp:37-94 | the loop computes the run of the register |
| `Bech32.ChecksumIs` | src/bech32.cpp:117-139 | the created checksum verifies and no other six symbols do |
| `Bech32.ErrorDetected` | src/bech32.cpp:117-125 | two sequences of equal length that differ in one symbol never both verify |
| `Bech32.BurstDetected` | src/bech32.cpp:117-125 | nor do two that differ only within six neighbouring symbols |
| `Bech32.ExpandHRP` | src/bech32.cpp:103-115 | a zero in the middle, and before and after it the two parts that make up each character code |
| `Bech32.VerifyChecksum` | src/bech32.cpp:118-125 | true exactly when the register ends at one |
| `Bech32.CreateChecksum` | src/bech32.cpp:128-139 | the six symbols that make it end at one |
| `Bech32.Encode` | src/bech32.cpp:147-156 | the encoding of the specification |
| `Bech32.Decode` | src/bech32.cpp:159-189 | the decoding of the specification, with every refusal |
| `Bech32.DecodeEncoded` | src/bech32.cpp:147-189 | what is encoded is decoded, for every lower-case prefix and data within 90 characters |
| `Bech32.EncodeDecoded` | src/bech32.cpp:147-189 | every accepted string is, in lower case, the encoding of what it decodes to |
| `Bech32.Accepts` | src/bech32.cpp:159-189 | a string decodes to a prefix and data exactly when in lower case it is their encoding and it does not mix cases |
| `Bech32.PublishedExample` | src/bech32.cpp:147-156 | the encoding of prefix a without data is a12uel5l, as in BIP 173 |
| `NetFraming.MakeHeader` | src/protocol.h:26-60 | a header of 24 bytes with start, command, size and checksum at their places |
| `NetFraming.Delivered` | src/net.cpp:743-793 | messages that have arrived in full are a prefix of those pushed, and all of them once everything has arrived |
| `NetFraming.NeverRefused` | src/net.cpp:766-772 | in a stream of acceptable messages no oversized header is found where a message begins |
| `NetFraming.EndToEnd` | src/net.cpp:743-937 | between two nodes, for every pattern of partial writes and every chunking, messages arrive intact and in order and no chunk of them is refused |
| `NetFraming.NetMessage.ReadHeader` | src/net.cpp:822-851 | takes in the bytes that belong to the header; fails exactly when these complete a header with a size above the limit |
| `NetFraming.NetMessage.ReadData` | src/net.cpp:853-868 | takes in at least one byte and no more than belong to the message |
| `NetFraming.NetMessage.Whole` | src/net.h:586-591 | a complete message holds exactly its data, whatever was allocated ahead |
| `NetFraming.Node.constructor` | src/net.h:607-617 | nothing queued, nothing received |
| `NetFraming.Node.SocketSendData` | src/net.cpp:887-937 | all assertions hold; nSendSize is the size of the queue; bytes written and pending are those of the messages pushed |
| `NetFraming.Node.PushMessage` | src/net.cpp:2805-2840 | the message joins the queue whole, header first, with start, command, size and checksum in it; the pause flag says exactly whether the queue is over its limit |
| `NetFraming.Node.Absorb` | src/net.cpp:752-790 | one round of the loop takes in at least one byte of the stream, or finds an oversized header |
| `NetFraming.Node.ReceiveMsgBytes` | src/net.cpp:743-793 | the stream grows by exactly the bytes given; the flag says exactly whether a message was completed; no part of a stream of acceptable messages is refused |
| `BlockRelay.MakeShortBlock` | src/blockencodings.cpp:18-28 | the first transaction in full and the short ids of the others |
| `BlockEncodings.PlacePrefilled` | src/blockencodings.cpp:57-75 | accepts exactly lists whose transactions fit among the short ids, each in its slot; every index is in range |
| `BlockEncodings.MapSlots` | src/blockencodings.cpp:81-103 | succeeds exactly when the short ids differ and no bucket is crowded on the way; the i-th short id is mapped to the number of the i-th unfilled slot in 16 bits; endless exactly when 65536 slots are filled in a row |
| `BlockEncodings.NextFree` | src/blockencodings.cpp:84-85 | an unfilled slot is left as long as short ids are, so the search stays in range; it ends exactly when a 16-bit offset can reach one |
| `BlockEncodings.SixteenBits` | src/blockencodings.cpp:81-86 | the i-th short id belongs to the i-th unfilled slot exactly when there are at most 65536 slots |
| `BlockRelay.SlotWraps` | src/blockencodings.cpp:81-86 | in a larger block the short id of transaction 65536 is taken for the first slot |
| `BlockEncodings.SearchEnds` | src/blockencodings.cpp:81-85 | a 16-bit offset reaches an unfilled slot exactly when fewer than 65536 transactions are prefilled |
| `BlockEncodings.EndlessExample` | src/blockencodings.cpp:48-85 | 65536 prefilled transactions in a row and one short id pass all tests before the search and leave it nothing to find |
| `BlockEncodings.PartiallyDownloadedBlock.MatchPool` | src/blockencodings.cpp:105-133 | the counter is the number of slots that hold a match; where short ids have slots of their own, every slot stands as a scan of the candidates with its short id leaves it |
| `BlockEncodings.PartiallyDownloadedBlock.MatchExtra` | src/blockencodings.cpp:135-164 | the same for the extra transactions, where only another witness hash is a conflict |
| `BlockEncodings.FilledByOne` | src/blockencodings.cpp:109-132 | a slot is filled from the pool exactly when one candidate has its short id |
| `BlockEncodings.FirstStands` | src/blockencodings.cpp:135-164 | among extra transactions the first candidate stands exactly when all have its witness hash; a conflict in the pool is final |
| `BlockEncodings.PartiallyDownloadedBlock.InitData` | src/blockencodings.cpp:48-169 | refused exactly for the reasons given, among them equal or crowded short ids, and endless exactly for a packed block; for every size no index is out of range, slots hold what was prefilled or matched, and the counter is exact; up to 65536 slots every slot is prefilled or holds what the two scans leave there |
| `BlockEncodings.PartiallyDownloadedBlock.FillBlock` | src/blockencodings.cpp:177-199 | invalid exactly when the number of missing transactions is wrong; otherwise the gaps are filled in order and the status is what the block check says of the result |
| `BlockRelay.Reconstructed` | src/blockencodings.cpp:177-199 | without false matches, and with nothing offered for a slot beyond 65535, filling in the missing transactions gives the sender's block |
| `BlockEncodings.PartiallyDownloadedBlock.MissingIndexes` | src/net_processing.cpp:2528-2531 | the numbers of the unfilled slots, in order, cut to 16 bits |
| `BlockRelay.RequestExact` | src/net_processing.cpp:2528-2540 | request, wire and reader give the unfilled slots exactly when all of them are below 65536 |
| `BlockRelay.RequestWraps` | src/net_processing.cpp:2528-2531 | with 65537 slots and only the last unfilled, index 0 is asked for |
| `BlockRelay.SendBlockTransactions` | src/net_processing.cpp:1274-1290 | the transactions of the indexes, or no answer when one is outside the block |
| `BlockRelay.RequestMissing` | src/blockencodings.h:38-68 | what comes back for a request after writing, reading and serving it |
| `BlockRelay.ReplyIsRequested` | src/blockencodings.h:38-68 | for up to 65536 transactions the reply holds exactly the missing ones |
| `BlockRelay.BeyondIsWrong` | src/net_processing.cpp:1274-1284 | with slot 65536 unfilled there is no reply, or it starts with the first transaction |
| `BlockRelay.Relay` | src/blockencodings.cpp:18-199 | a whole exchange without false matches: invalid exactly over the limit, failed exactly when short ids are equal or crowded, and otherwise a block of up to 65536 transactions is rebuilt and gets the verdict of the block check; a larger one stays without an answer or gets its first transaction in slot 65536 |
| `BlockEncodings.SixBytes` | src/blockencodings.h:171-186 | six bytes carry a short id exactly when it has at most 48 bits |
| `BlockEncodings.WriteIndexes` | src/blockencodings.h:63-66 | the distances between indexes as 64-bit numbers |
| `BlockEncodings.ReadIndexes` | src/blockencodings.h:42-61 | refuses exactly distances that lead outside 16 bits |
| `BlockEncodings.IndexesRoundTrip` | src/blockencodings.h:38-68 | indexes survive the wire exactly when they are strictly increasing |
| `BlockEncodings.ReadIncreasing` | src/blockencodings.h:55-61 | distances are accepted and read as strictly increasing exactly when their sum and number together are at most 65536 |
| `BlockEncodings.OffsetWraps` | src/blockencodings.h:55-61 | the distances 65535 and 0 are accepted and read as a descending pair |

## Left out

- Coins: memory accounting and the best-block hash, which depend on the allocator and on the order of calls.
- Address manager: `Select_`, whose random probing has no bound; the byte-level stream, so a negative count in it. `Check_` is a predicate, not a loop. A table slot holding -1 is an absent key of a map, and service flags are the set of their bits.
- Miner.BlockAssembler.AddPackageTxs: fees are not modelled; candidates may come in any order, so the order by fee rate is covered as a special case.
- CheckQueue: mutexes and condition variables are atomic steps; spurious wake-ups are allowed by them.
- MerkleBlock: double SHA-256 is a parameter, assumed collision-free only where stated.
- CuckooCache.Cache.constructor: the depth limit, computed with a floating-point logarithm, is given.
- CuckooCache: bit packing and atomicity of the collection flags; concurrent erasure.
- ArithUint256: decrement, the bitwise operators on whole numbers, and conversion to text and double.
- Compact.GetBlockProof: the variant that depends on the proof-of-work type, which needs consensus parameters.
- Chain.BlockIndex: parent links and heights are fixed at creation, although the source stores them in ordinary fields.
- CheckpointSync.SyncCheckpoints.Deliver: only messages that name known blocks; a message for an unknown block replaces the one kept before.
- Chain.BlockTree.AddToBlockIndex: a header that names itself as its parent, which no hash allows; chain trust and the best header.
- CheckpointSync: signatures, relaying, and which checkpoint is hardened.
- RollingBloom: sizes derived from a false-positive rate, and the rate itself; a 64-bit word is the sequence of its bits.
- Base58: addresses and keys built on the encoding.
- Bech32.PolyMod: the 30-bit register is kept as its six five-bit groups.
- NetFraming: moving complete messages on to the processing queue, statistics, and the message checksum.
- BlockEncodings.PartiallyDownloadedBlock.InitData: the hash map's buckets are a parameter that tells when one is crowded; a call that does not return is a status of its own; beyond 65536 slots, which of the transactions offered for a slot it holds; the count of extra transactions, which the source does not keep exact.
- BlockEncodings.PartiallyDownloadedBlock.FillBlock: the block check is a parameter.
- BlockRelay: choice of peers, timeouts, and the fallback to the full block.
- Proof-of-stake kernel, validation, wallet, RPC and start-up.
