# OurChain core, modelled and proved in Dafny

OurChain is a fork of Bitcoin Core with its own contract states and its own proof of work (GPoW). This project models
the parts of it whose correctness rests on whole-structure invariants, on protocols or on unbounded arithmetic, and
proves what the code and its comments promise about them. `dafny verify dfyconfig.toml` verifies everything. Nothing was
executed: the claims are those of the contracts.

How the files are laid out: the behaviour of a component is written as functions on values, with the lemmas about them,
and beside it stands the imperative form the source has (classes, arrays, loops), each method proved to compute those
functions or to meet its specification outright. A file ending in Exact tells, in fields, slots and places, what each of
these functions does.

| component | files |
|---|---|
| address manager: six redundant structures | AddrManState, AddrManBuckets, AddrManOps, AddrManExact (values), AddrMan (in place) |
| its own check, saving and loading | AddrManCheck, AddrManImage (values), AddrManFile (in place) |
| layered coin and contract-state cache | Coins, CoinsExact (values), CoinsCache (linked objects) |
| block assembler | BlockPackages, BlockSelection (values), Miner (in place) |
| parallel check queue | CheckQueue (state machine of master and workers) |
| cuckoo cache | Cuckoo, CuckooExact (values), CuckooCache, Bits (in place) |
| partial Merkle trees | PartialMerkle, PartialMerkleExact (values), MerkleBlock (in place) |
| block index and active chain | SkipHeights (values), Chain (linked objects) |
| 256- and 288-bit arithmetic | Division, Words (numbers of words), ArithUint, ArithShift, ArithDivide |
| compact targets, block proof, retargeting | Compact (values), Pow, Difficulty |
| GPoW | GPoWHeap (values), GPoW (in place) |
| Base58 | Digits, Base58 (values), Base58Codec (loops) |
| rolling Bloom filter | RollingBloom, RollingBloomExact (values), BloomFilter (in place) |
| compact blocks (BIP 152) | CompactBlocks, CompactExact (values), PartialBlock (in place), BlockRelay (both ends together) |
| shared definitions | Common |

What stands for what: hashes (SHA-256, MurmurHash, SipHash, the cheap hash), clocks, random draws, the routability and
group of an address, script rules, the flag that allows mining and the crowding of a hash-table bucket are parameters,
so every statement is for all of them. No row assumes a hash to be injective. Error returns and
exceptions are result values. Machine integers are unbounded except where the width matters, where it is written out
(32-bit words and 64-bit products, the 32-bit factor of retargeting, 32-bit nonces, 16-bit block indices, 64-bit
differences of indices). Bitwise and and or of words are functions on numbers; the 64-bit words of the Bloom filter are the
sequences of their bits; service flags are the sets of their bits.

Findings where the code and what is said about it differ; the model follows the code:

- `Good_` and `Attempt_` keep the invariant of `Check_` if and only if the time is positive, respectively not negative,
  or the address is unknown (`GoodConsistent`, `AttemptConsistent`). One added address is enough to lose it otherwise
  (`ClockNeeded`).
- The comment at src/addrman.h:125-131 speaks of a randomly chosen entry that makes room in a full bucket. In the code it
  is the occupant of the one slot the hash gives; for a new address it leaves if and only if it is terrible or has another
  slot (`AddEffect`).
- The comment at src/cuckoocache.h:419-420 says that the first displacement uses the first of the eight locations. The
  code picks the second (`KickOrder`).
- A built partial Merkle tree is rejected by its own extractor exactly when a two-child node it visits has equal
  children (`RoundTrip`, `RefusedExample`).
- A 256-bit number multiplied by itself in place becomes 0 (`MulAssign`).
- The multiplication in retargeting takes the clamped timespan as a 32-bit number and keeps 256 bits of the product. All
  adjustments are exact if and only if neither limit is reached from powLimit and four timespans (`FitsExact`); otherwise
  a target can drop to 0 (`FactorExample`). Whatever wraps, it never rises above four times the old one. For spans between
  header times, which have 32 bits, the exact condition is `HeadersFitExact`; the main and test networks meet it
  (`NetworksFit`), the limit of the regression-test network would not (`RegressionTestWraps`).
- The lowest retarget is the target for a quarter of the timespan rounded down. It leaves a quarter of every old target,
  up to the compact rounding, if and only if four divides the timespan or powLimit is below 4 (`QuarterExact`,
  `QuarterExample`).
- A request for block transactions with differences 65535 and 0 is accepted although its indices do not increase
  (`WrappedRequest`, `RequestAccepted`).
- A compact block may announce up to 100000 transactions, but the places of its short ids are kept in 16 bits. Beyond
  65536 transactions they are kept modulo 65536 (`StoredExact`, `StoredExample`), and after 65536 prefilled ones the walk
  to a free place does not end (`WalkEnds`, `BlockedExample`).
- The running sum of a nonce set mined again restarts at 0 while its kept hashes stay, so that its average is off
  (`MeanExact`, `ResumedExample`). Every caller in the repository mines a new set.
- The comment at src/miner.cpp:419 says that everything else has a lower fee rate once the best package is below the
  minimum fee. Nothing else pays faster unless it was turned down before (`AddPackageTxs`), but a slower package can still
  meet the rounded minimum fee of its own size (`OthersBelowRate`, `SlowerMayMeetFee`).
- A modified entry gives up the modified fee of the first included ancestor and the plain fee of the others, so that its
  fee is off by the fee deltas of those (`WithoutSums`).
- `Check_` reads an absent address as id 0 and enters it (`CheckEntry`).

The comment at src/chain.cpp:77-79, which promises at most 110 steps to go back up to 2^18 blocks, is exact: `AtMost110`.

## Model

| member | source | states |
|---|---|---|
| `AddrManState.TriedBucket` | src/addrman.cpp:12-17 | the tried bucket is in range for every key, address and hash |
| `AddrManState.NewBucket` | src/addrman.cpp:19-25 | the new bucket is in range for every key, address and source |
| `AddrManState.BucketPosition` | src/addrman.cpp:27-31 | the position is within the bucket |
| `AddrManBuckets.TriedGroupSpread` | src/addrman.cpp:12-17 | all addresses of one group together reach at most eight tried buckets, for every hash |
| `AddrManBuckets.SourceGroupSpread` | src/addrman.cpp:19-25 | all addresses heard from sources of one group reach at most sixty-four new buckets |
| `AddrManState.CreateCoherent` | src/addrman.cpp:81-91 | a created entry keeps the six structures in agreement, itself waiting for its first reference |
| `AddrManState.SwapCoherent` | src/addrman.cpp:93-111 | swapping two places of vRandom keeps the agreement, positions included |
| `AddrManState.DeleteCoherent` | src/addrman.cpp:113-125 | deleting an entry without references is possible (its asserts hold) and keeps the agreement |
| `AddrManState.ClearNewCoherent` | src/addrman.cpp:127-140 | clearing a new slot drops one reference, deletes the entry with its last one, and keeps the agreement |
| `AddrManState.PutRefCoherent` | src/addrman.cpp:302-305 | a further reference in a free slot keeps the agreement while fewer than eight are used |
| `AddrManState.EvictCoherent` | src/addrman.cpp:160-182 | moving the occupant of a tried slot back to the new table keeps the agreement and disturbs no entry being moved |
| `AddrManState.MakeTriedCoherent` | src/addrman.cpp:142-188 | all asserts of MakeTried hold for an entry of the new table, and the agreement is kept |
| `AddrManOps.MakeTriedEffect` | src/addrman.cpp:142-188 | the entry sits in its tried slot and in no new slot; the displaced one is in its own new slot with one reference; every other slot of both tables is as before except the one displaced |
| `AddrManOps.GoodMoves` | src/addrman.cpp:190-240 | a known untried entry ends up in the tried table with its stamps |
| `AddrManOps.GoodConsistent` | src/addrman.cpp:190-240 | Good_ keeps the whole invariant if and only if the time is positive or the address is not the known one |
| `AddrManOps.AddCoherent` | src/addrman.cpp:242-313 | Add_ keeps the agreement of the six structures for every address, source, penalty, clock and draw |
| `AddrManOps.AddEffect` | src/addrman.cpp:242-313 | when Add_ reports a new entry; a new entry takes its slot if and only if the slot is free or its occupant is terrible or has another slot; a known one if and only if the draw allows it and the occupant can be displaced; nothing else changes |
| `AddrManExact.NewEntry` | src/addrman.cpp:242-313 | for every coherent state: an unknown routable address takes the slot of its address and source under the next id if the slot is free or its occupant is terrible or has another slot, with its services, the penalised time (no penalty for a source announcing itself) and every other field at its start; otherwise it leaves no trace |
| `AddrManExact.KnownEntry` | src/addrman.cpp:256-311 | for every coherent state: a known entry gets the union of the services and the announced time less the penalty only when that is given and later by more than an hour or a day; nothing else of it changes but its references; exactly when it gets another slot |
| `AddrManExact.AnnouncedTimeIs` | src/addrman.cpp:251-254 | a self-announcement is not penalised, any other by the penalty, not below zero |
| `AddrManExact.TerribleExact` | src/addrman.cpp:33-51 | terrible exactly by the five conditions, and never within a minute of a try |
| `AddrManExact.KnownExact` | src/addrman.cpp:68-79 | an address with its port is known exactly if an entry has it |
| `AddrManExact.GoodUnknown` | src/addrman.cpp:190-202 | for an unknown address only the time of the last success moves |
| `AddrManExact.GoodTried` | src/addrman.cpp:204-217 | a tried entry only gets its stamps |
| `AddrManExact.GoodUntried` | src/addrman.cpp:204-240 | an untried entry gets its stamps, leaves every new slot and takes its tried slot; the one that was there goes to its own new slot with one reference; no other entry changes but for references, and no other slot |
| `AddrManExact.AttemptExact` | src/addrman.cpp:315-335 | sets the last try; counts a failure, once between two successes; changes nothing else |
| `AddrManExact.ConnectedExact` | src/addrman.cpp:483-501 | moves the time of a known address more than twenty minutes behind, and nothing else |
| `AddrManExact.SetServicesExact` | src/addrman.cpp:503-519 | sets the services of a known address and nothing else |
| `AddrManExact.LimitExact` | src/addrman.cpp:462-466 | the largest number within 2500 and 23 percent |
| `AddrManExact.DrawExact` | src/addrman.cpp:473-474 | a draw swaps in the entry that many places on, so that every remaining one can be drawn |
| `AddrManOps.AddConsistent` | src/addrman.cpp:242-313 | Add_ keeps the whole invariant |
| `AddrManOps.AttemptConsistent` | src/addrman.cpp:315-335 | Attempt_ keeps the invariant if and only if the time is not negative or the address is not the known one |
| `AddrManOps.ConnectedConsistent` | src/addrman.cpp:483-501 | Connected_ keeps the invariant |
| `AddrManOps.SetServicesConsistent` | src/addrman.cpp:503-519 | SetServices_ keeps the invariant |
| `AddrManOps.GetAddrPicks` | src/addrman.cpp:462-481 | the answer is the good entries of a prefix of vRandom, cut only at the limit |
| `AddrManOps.GetAddrExact` | src/addrman.cpp:462-481 | GetAddr_ only permutes vRandom; the answer has no duplicate, no terrible entry, at most the limit, and all good entries when below it |
| `AddrManOps.StepConsistent` | src/addrman.cpp:190-519 | every public operation with a clock time keeps the invariant |
| `AddrManOps.RunConsistent` | src/addrman.cpp:190-519 | every state of every run from the empty manager satisfies the invariant |
| `AddrManOps.ClockNeeded` | src/addrman.cpp:190-335 | after any routable address is added to the empty manager, Good_ at time 0 and Attempt_ at a negative time each break the invariant |
| `AddrMan.Manager.constructor` | src/addrman.h:456-475 | a new manager is empty and consistent |
| `AddrMan.Manager.Create` | src/addrman.cpp:81-91 | in place: the function of the same name on the abstract state |
| `AddrMan.Manager.SwapRandom` | src/addrman.cpp:93-111 | in place: swaps two places and the two recorded positions |
| `AddrMan.Manager.Delete` | src/addrman.cpp:113-125 | in place: removes the entry from the map, the address index and vRandom |
| `AddrMan.Manager.ClearNew` | src/addrman.cpp:127-140 | in place: empties a slot of the bucket array and deletes an entry left without references |
| `AddrMan.Manager.Detach` | src/addrman.cpp:144-154 | the scan of all new buckets removes every reference of the entry and counts them down to zero |
| `AddrMan.Manager.Evict` | src/addrman.cpp:160-182 | in place: returns the occupant of a tried slot to its new slot |
| `AddrMan.Manager.MakeTried` | src/addrman.cpp:142-188 | in place: detaches, evicts and enters |
| `AddrMan.Manager.Find` | src/addrman.cpp:68-79 | finds an entry exactly when the address index has it |
| `AddrMan.Manager.FindBucket` | src/addrman.cpp:219-232 | from any starting bucket the circular search finds a bucket that holds the entry |
| `AddrMan.Manager.Good_` | src/addrman.cpp:190-240 | in place: the function Good, of which GoodUnknown, GoodTried and GoodUntried tell every field, keeping the agreement |
| `AddrMan.Manager.Add_` | src/addrman.cpp:242-313 | in place: the function Add with its result, of which NewEntry and KnownEntry tell every field, keeping the agreement |
| `AddrMan.Manager.Attempt_` | src/addrman.cpp:315-335 | in place: the function Attempt (AttemptExact), keeping the agreement |
| `AddrMan.Manager.Connected_` | src/addrman.cpp:483-501 | in place: the function Connected (ConnectedExact), keeping the agreement |
| `AddrMan.Manager.SetServices_` | src/addrman.cpp:503-519 | in place: the function SetServices (SetServicesExact), keeping the agreement |
| `AddrMan.Manager.GetAddr_` | src/addrman.cpp:462-481 | in place: GetAddr with its answer, keeping the agreement |
| `AddrManCheck.Check_` | src/addrman.cpp:385-459 | returns zero if and only if every entry, both counters, both tables, the reference counts and the key pass |
| `AddrManCheck.CheckEntry` | src/addrman.cpp:393-417 | zero exactly when the entry passes; an absent address reads as id 0 |
| `AddrManCheck.CheckEntries` | src/addrman.cpp:393-417 | zero exactly when all entries pass, with the tried ids and the reference counts to look for |
| `AddrManCheck.CheckTriedTable` | src/addrman.cpp:424-436 | passes with nothing left over exactly when tried slots and tried entries match one to one |
| `AddrManCheck.CheckNewTable` | src/addrman.cpp:438-449 | passes with nothing left over exactly when every entry has as many valid slots as references |
| `AddrManCheck.ConsistentPasses` | src/addrman.cpp:385-459 | the invariant implies that the check passes |
| `AddrManCheck.PassesConsistent` | src/addrman.cpp:385-459 | passing the check implies the invariant, given ids below the counter and no stray address entries |
| `AddrManCheck.RunPasses` | src/addrman.cpp:385-459 | the check passes in every state of every run |
| `AddrManImage.RoundTrip` | src/addrman.h:301-454 | loading the image of a consistent manager rebuilds both tables, references, address map and counts under new ids; every entry comes back with its address, services, time, source, last success and attempts, and with its last try cleared; nothing is lost and no limit is exceeded |
| `AddrManImage.ImageIs` | src/addrman.h:301-348 | the header of the image (version 1, key of 32 bytes, 1024 buckets with bit 30 set) and as many entries as the counts say |
| `AddrManImage.RefusedExactly` | src/addrman.h:351-377 | each of the three format errors exactly when its condition holds |
| `AddrManImage.OtherLayoutNews` | src/addrman.h:379-398 | an image of another version or bucket count: each new entry asks for the slot of its address and source and gets it if no earlier one did |
| `AddrManImage.OtherLayoutRows` | src/addrman.h:420-436 | and its saved positions are not used |
| `AddrManImage.LoadedConsistent` | src/addrman.h:351-454 | the loaded manager is consistent again |
| `AddrManImage.NewsRead` | src/addrman.h:379-398 | the new entries get the ids 0, 1, ... in saving order |
| `AddrManImage.TriedRead` | src/addrman.h:399-418 | every tried entry finds its slot free |
| `AddrManImage.IndexRead` | src/addrman.h:420-436 | a saved position is read back into the very slot it came from |
| `AddrManImage.NothingPruned` | src/addrman.h:438-449 | no entry is left without a reference |
| `AddrManImage.CountsFit` | src/addrman.h:371-377 | a consistent manager never exceeds the limits on the counts |
| `AddrManFile.SaveNews` | src/addrman.h:314-324 | writes the entries with references in id order and numbers them; the assert on nNew holds |
| `AddrManFile.SaveTried` | src/addrman.h:325-333 | writes the tried entries in id order; the assert on nTried holds |
| `AddrManFile.SaveRow` | src/addrman.h:334-347 | writes the numbers of one bucket in position order |
| `AddrManFile.Serialize` | src/addrman.h:301-348 | the loops write the image of the abstract state, which ImageIs, RefusedExactly and RoundTrip tell |
| `AddrManFile.LoadNew` | src/addrman.h:379-398 | reads one new entry, with a primary reference when positions cannot be used |
| `AddrManFile.LoadTriedEntry` | src/addrman.h:401-417 | reads one tried entry or counts it as lost |
| `AddrManFile.LoadIndex` | src/addrman.h:424-434 | takes a saved position only if the slot is free and references are left |
| `AddrManFile.PruneExact` | src/addrman.h:438-449 | pruning removes exactly the untried entries without references and changes no other entry or slot |
| `AddrManFile.PruneUnreferenced` | src/addrman.h:438-449 | deletes unreferenced entries; the asserts of Delete hold for every image |
| `AddrManFile.Unserialize` | src/addrman.h:351-454 | reads any image into a new manager, with the three format errors; what the result is, RoundTrip, OtherLayoutNews, OtherLayoutRows and PruneExact tell |
| `Coins.GetCoinRefines` | src/coins.cpp:47-83 | a lookup through any number of layers answers from the visible map and changes no layer's view |
| `Coins.GetContRefines` | src/coins.cpp:64-92 | the same for contract states |
| `Coins.AddContRefines` | src/coins.cpp:135-144 | a contract-state write changes the top view at that key only |
| `Coins.StoreCoinRefines` | src/coins.cpp:94-112 | the flags stay truthful if and only if overwriting was allowed or no unspent coin was visible |
| `Coins.NotifyRefines` | src/coins.cpp:113-132 | an output paid to a known contract is appended to that contract's list of coins, in the top view only |
| `Coins.AddCoinRefines` | src/coins.cpp:94-133 | adding a coin is one map update; without permission to overwrite a visible coin it throws or breaks the flags |
| `Coins.SpendRefines` | src/coins.cpp:157-171 | spending removes the coin from the top view and hands it out |
| `Coins.UncacheRefines` | src/coins.cpp:285-292 | uncaching changes no view |
| `Coins.MergeRefines` | src/coins.cpp:204-260 | merging a child layer into its parent shows what the child showed, keeps the flags truthful and raises no logic_error |
| `Coins.WriteRefines` | src/txdb.cpp:107-175 | writing dirty entries to the database gives the map the layer showed |
| `Coins.BatchWriteRefines` | src/coins.cpp:204-275 | a batch write makes the parent show the child's view |
| `Coins.FlushRefines` | src/coins.cpp:277-283 | a flush moves the view down one layer and leaves the layer empty |
| `Coins.AddCoinsRefines` | src/coins.cpp:146-155 | adding all outputs of a transaction equals adding them to one map |
| `Coins.StepRefines` | src/coins.cpp:47-292 | every operation gives the answers and views of nested plain maps |
| `Coins.RunRefines` | src/coins.cpp:47-292 | so does every run over every stack of layers, pushed and popped at will |
| `CoinsExact.FreshAnswers` | src/coins.cpp:47-92 | an empty cache over a database answers from the database |
| `CoinsExact.AddAnswers` | src/coins.cpp:94-133 | after adding, the place answers with the coin, the contract its script names has the place at the end of its list, and every other lookup is unchanged; an unspendable coin changes nothing |
| `CoinsExact.SpendAnswers` | src/coins.cpp:157-171 | after spending, the place answers with nothing, the coin was handed out, and every other lookup is unchanged |
| `CoinsExact.StateAnswers` | src/coins.cpp:135-144 | after a contract-state write that id answers with the new state and every other lookup is unchanged |
| `CoinsExact.FlushAnswers` | src/coins.cpp:277-283 | after a flush the cache is empty and both it and the layer below answer what the cache answered |
| `CoinsExact.ReadsKeepAnswers` | src/coins.cpp:76-83 | no lookup and no uncaching changes any answer |
| `CoinsExact.OutputAnswers` | src/coins.cpp:146-155 | after adding a transaction each spendable output answers with its value, script, height and kind, each known contract has its outputs appended in order, and nothing else changes |
| `CoinsCache.Cache.FetchCoin` | src/coins.cpp:47-62 | in place: pulls a coin into this layer, fresh when the parent holds only a spent one |
| `CoinsCache.Cache.GetCoin` | src/coins.cpp:76-83 | in place through the chain of objects: the function on stacks |
| `CoinsCache.Cache.GetContState` | src/coins.cpp:85-92 | in place: the contract-state lookup |
| `CoinsCache.Cache.AddContState` | src/coins.cpp:135-144 | in place: the contract-state write |
| `CoinsCache.Cache.AddCoin` | src/coins.cpp:94-133 | in place: the function on stacks, throwing exactly when it does |
| `CoinsCache.Cache.SpendCoin` | src/coins.cpp:157-171 | in place: the function on stacks |
| `CoinsCache.Cache.HaveCoin` | src/coins.cpp:184-187 | true exactly when an unspent coin is fetched |
| `CoinsCache.Cache.Uncache` | src/coins.cpp:285-292 | in place: drops a clean entry |
| `CoinsCache.Cache.BatchWrite` | src/coins.cpp:204-275 | in place: throws exactly on a misapplied fresh entry, else merges |
| `CoinsCache.Cache.Flush` | src/coins.cpp:277-283 | in place: writes down and empties |
| `CoinsCache.Cache.AddCoins` | src/coins.cpp:146-155 | in place: the loop over outputs |
| `CoinsCache.Database.BatchWrite` | src/txdb.cpp:107-175 | in place: writes dirty coins, erasing spent ones |
| `BlockPackages.AncestorCountGrows` | src/miner.h:88-95 | an ancestor has a strictly smaller ancestor count, so sorting by it is topological |
| `BlockPackages.PackageOrdered` | src/miner.cpp:328-337 | appending a sorted package keeps the list free of duplicates and ancestors first |
| `BlockPackages.PackageWithin` | src/miner.cpp:230-238 | the package test on true sums keeps all totals within the limits |
| `BlockPackages.PackageKeeps` | src/miner.cpp:264-284 | adding a whole tested package keeps order, closure, totals and limits |
| `BlockSelection.WithoutSums` | src/miner.cpp:286-311 | a discounted entry has the true size and sigop sums of the rest of its package, and its true modified fees plus the fee deltas of all discounted ancestors but one |
| `BlockSelection.DiscountedStep` | src/miner.h:117-129 | one round of updates takes one added ancestor out of each dependent once, the first with its modified fee and later ones with their plain fee |
| `BlockSelection.TrackedAdded` | src/miner.cpp:286-311 | after a package and its updates every entry again holds the sums without its ancestors in the block, unless it was turned down before |
| `BlockSelection.EvaluatedSums` | src/miner.cpp:409-416 | the sums a transaction is evaluated with are never below the true remaining ones, and equal to them unless it was turned down before |
| `BlockSelection.TurnedDownStays` | src/miner.cpp:423-457 | what was refused at one point of the block stays accounted for as it grows |
| `BlockSelection.AheadTrans` | src/miner.h:70-83 | the order by fee rate, then by transaction, is transitive |
| `BlockSelection.FrontIsForemost` | src/miner.cpp:378-403 | the entry the loop picks pays no slower than any other transaction outside the block that was not turned down |
| `BlockSelection.OthersBelowRate` | src/miner.cpp:418-421 | once that one is below the minimum fee every other pays less than the minimum rate; it can meet the minimum fee of its size only exactly, and only where that fee was rounded |
| `BlockSelection.SlowerMayMeetFee` | src/policy/feerate.cpp:23-38 | a concrete pair where it does |
| `BlockPackages.OrderedClosed` | src/miner.cpp:349-477 | the selected list is closed under in-pool ancestors |
| `Miner.BlockAssembler.AddToBlock` | src/miner.cpp:264-284 | in place: one transaction and all counters |
| `Miner.BlockAssembler.OnlyUnconfirmed` | src/miner.cpp:217-228 | removes exactly what is already in the block |
| `Miner.BlockAssembler.TestPackage` | src/miner.cpp:230-238 | weight and sigop cost both stay below the limits |
| `Miner.BlockAssembler.TestPackageTransactions` | src/miner.cpp:245-262 | every member is final, without witness unless allowed, and the sizes fit |
| `Miner.BlockAssembler.UpdatePackagesForAdded` | src/miner.cpp:286-311 | every dependent of the added transactions, and no other, is discounted once per added ancestor, in size, sigop cost and fees; the number of updates |
| `Miner.BlockAssembler.Next` | src/miner.cpp:378-403 | the best modified entry or the next pool entry, whichever pays faster |
| `Miner.BlockAssembler.SortForBlock` | src/miner.cpp:328-337 | a permutation sorted by ancestor count |
| `Miner.BlockAssembler.TryPackage` | src/miner.cpp:423-475 | either adds exactly the rest of the package, ancestors first, and keeps all invariants, or changes nothing and the package is turned down |
| `Miner.BlockAssembler.AddPackageTxs` | src/miner.cpp:349-477 | terminates; the block is a sequence of packages, each the rest of the fastest-paying one left, paying the minimum fee, ancestors first; duplicate-free, closed, totals exact and within limits; on exhaustion every transaction outside was refused at some point of the block by its true remaining package; on a low fee the fastest-paying package left is below the minimum; on giving up the block is nearly full and more than 1000 transactions were turned down since the last package; both counters |
| `CheckQueue.TakeBatch` | src/checkqueue.h:110-117 | moves the last checks of the queue, in reverse, and keeps the others |
| `CheckQueue.RunBatch` | src/checkqueue.h:121-125 | the flag stays true exactly when every check of the batch is true |
| `CheckQueue.NextInv` | src/checkqueue.h:69-161 | every locked section, batch, wake-up (also spurious), add and wait keeps the protocol invariant |
| `CheckQueue.RunInv` | src/checkqueue.h:69-161 | the invariant holds in every interleaving |
| `CheckQueue.NothingLost` | src/checkqueue.h:69-161 | nTodo is queued plus held checks; every added check is queued, held or done, as multisets |
| `CheckQueue.WaitCorrect` | src/checkqueue.h:143-146 | Wait returns with every added check done exactly once, true if and only if all are true, and a clean queue |
| `CheckQueue.WaitAnswers` | src/checkqueue.h:143-161 | in every run, Wait returns true if and only if every check handed to Add since it last returned is true; until then each is queued, held by one thread or done, as often as it was added |
| `CheckQueue.BatchSizeExact` | src/checkqueue.h:105-110 | a batch is one check, or the largest within nBatchSize whose size times the threads leaves the queue enough |
| `CheckQueue.SleepingMasterIsAwaited` | src/checkqueue.h:69-127 | an un-notified sleeping master implies a worker that holds a batch |
| `CheckQueue.NeverStuck` | src/checkqueue.h:69-127 | while the master is inside, some step other than a spurious wake-up is possible |
| `CheckQueue.StepWorks` | src/checkqueue.h:69-146 | while the master waits every step but a spurious wake-up leaves less work, and a spurious one not more |
| `CheckQueue.WaitEnds` | src/checkqueue.h:143-146 | in every run, Wait returns within three steps per queued check and three per thread, spurious wake-ups not counted |
| `Cuckoo.HashesInRange` | src/cuckoocache.h:243-253 | all eight locations are table slots, for every table size |
| `Cuckoo.KickOrder` | src/cuckoocache.h:417-435 | a displaced element goes to the location after the one it left, cyclically; the inserted element to its second location, not its first |
| `Cuckoo.StoreKeeps` | src/cuckoocache.h:392-440 | every live element stays in one of its own slots, none is stored twice, and the live set gains e and loses at most one, for every depth limit |
| `CuckooExact.SlotIs` | src/cuckoocache.h:243-253 | each slot is the hash scaled to the table |
| `CuckooExact.DisplaceExact` | src/cuckoocache.h:406-439 | displacement move by move: who has no free slot takes the next slot in its order and hands on the occupant, until one lands in its first free slot or the rounds run out |
| `CuckooExact.StoreExact` | src/cuckoocache.h:392-440 | an element already in one of its slots is only marked; any other starts such a chain |
| `CuckooExact.StoreGains` | src/cuckoocache.h:387-389 | the live set becomes the old one with e, less at most the element left in hand; nothing is lost if e has a slot that is free or its own |
| `CuckooExact.InsertFound` | src/cuckoocache.h:375-440 | after an insertion e is found unless it was the one lost; never lost if it has a free slot |
| `CuckooExact.FoundAgain` | src/cuckoocache.h:442-455 | an element found and given up is still found, and nothing else changes |
| `CuckooExact.FreshStores` | src/cuckoocache.h:340-440 | a fresh cache finds nothing and stores any element |
| `CuckooExact.EpochCheckExact` | src/cuckoocache.h:289-321 | nothing but the counter moves until it has run out and the current live elements fill the epoch; then exactly the older ones may be overwritten and the current ones become the older |
| `Cuckoo.EpochCheckKeeps` | src/cuckoocache.h:289-321 | ageing only removes live elements |
| `Cuckoo.InsertAccounted` | src/cuckoocache.h:289-321 | live current-epoch elements plus the heuristic counter stay within the bound although the scan is rare |
| `Cuckoo.EraseAccounted` | src/cuckoocache.h:467-477 | a lookup, erasing or not, keeps placement and accounting |
| `Cuckoo.ContainsComplete` | src/cuckoocache.h:467-477 | a live element is always found; erasing removes exactly that element |
| `Cuckoo.StepOk` | src/cuckoocache.h:340-477 | every operation keeps placement and accounting |
| `Cuckoo.RunBounded` | src/cuckoocache.h:340-477 | in every run the live elements never exceed twice the bound |
| `CuckooCache.BitFlags.BitSet` | src/cuckoocache.h:61-116 | in place: sets exactly one bit of the packed flags |
| `CuckooCache.BitFlags.BitUnset` | src/cuckoocache.h:61-116 | in place: clears exactly one bit |
| `CuckooCache.BitFlags.BitIsSet` | src/cuckoocache.h:61-116 | reads one bit |
| `CuckooCache.Cache.EpochCheck` | src/cuckoocache.h:289-321 | in place: the function on states (EpochCheckExact) |
| `CuckooCache.Cache.Insert` | src/cuckoocache.h:392-440 | in place: the function on states, of which StoreExact and StoreGains tell every move |
| `CuckooCache.Cache.Contains` | src/cuckoocache.h:467-477 | in place: the function on states with its answer |
| `PartialMerkle.WidthHalves` | src/merkleblock.h:66-68 | the width of a level is half the one below, rounded up |
| `PartialMerkle.ExtractBuild` | src/merkleblock.cpp:81-135 | extracting at the place where a subtree was built consumes exactly its bits and hashes and returns its hash and matches |
| `PartialMerkle.BuildSizes` | src/merkleblock.cpp:81-97 | a subtree writes at least one hash, at most one per leaf, and no more hashes than bits |
| `PartialMerkleExact.HashIsLevel` | src/merkleblock.cpp:61-79 | the hash of every node is the one at its place when neighbours are hashed together level by level |
| `PartialMerkleExact.RootIsLast` | src/merkleblock.cpp:137-149 | the root is the last hash left |
| `PartialMerkleExact.PrunedNode` | src/merkleblock.cpp:81-91 | a node without a matched leaf below it is written as the bit 0 and its hash, and nothing below it |
| `PartialMerkleExact.OpenNode` | src/merkleblock.cpp:81-97 | a matched leaf as the bit 1 and its txid, a node above one as the bit 1 and its children |
| `PartialMerkleExact.BuildSmall` | src/merkleblock.cpp:81-97 | a subtree of height h with m matches takes at most m h + 1 hashes and 2 m h + 1 bits |
| `PartialMerkleExact.TreeSmall` | src/merkleblock.cpp:137-149 | so does the whole tree; without matches it is one bit and the root |
| `PartialMerkleExact.AcceptedShape` | src/merkleblock.cpp:153-184 | a tree is accepted exactly by the listed conditions on counts, bits, hashes and equal children |
| `PartialMerkle.RoundTrip` | src/merkleblock.cpp:137-184 | extracting a built tree, its bits padded to bytes or not, returns the root and exactly the matched ids and indices, if and only if no two-child node met has equal children |
| `PartialMerkle.RefusedExample` | src/merkleblock.cpp:121-127 | two equal txids, one matched: the tree built from them is rejected, for every hash |
| `PartialMerkle.MatchedExact` | src/merkleblock.cpp:137-149 | the matched indices are exactly the matches, in increasing order |
| `PartialMerkle.ExtractSound` | src/merkleblock.cpp:99-135 | for every hash: a subtree with the true hash yields only genuine matches, or holds a pair of hashes that is not the true one of its node and combines to the same hash |
| `PartialMerkle.AcceptedIsGenuine` | src/merkleblock.cpp:153-184 | for every hash: an accepted tree with the true root is genuine or holds such a forged pair, the second only if the pair hash is not injective |
| `MerkleBlock.PackBits` | src/merkleblock.h:87-105 | bits packed eight to a byte, lowest first |
| `MerkleBlock.UnpackBits` | src/merkleblock.h:87-105 | eight bits per byte in the same order |
| `MerkleBlock.RepackBits` | src/merkleblock.h:87-105 | packing and unpacking returns the bits padded to a byte |
| `MerkleBlock.PartialMerkleTree.TraverseAndBuild` | src/merkleblock.cpp:81-97 | in place: appends what the pure builder gives, which PrunedNode and OpenNode tell node by node |
| `MerkleBlock.PartialMerkleTree.TraverseAndExtract` | src/merkleblock.cpp:99-135 | in place: counters, matches and the bad flag as the pure extractor gives |
| `MerkleBlock.PartialMerkleTree.constructor` | src/merkleblock.cpp:137-149 | the built tree, of the size TreeSmall bounds |
| `MerkleBlock.PartialMerkleTree.ExtractMatches` | src/merkleblock.cpp:153-184 | all guards in order; zero on rejection or for a tree already bad; matches replace the caller's, positions follow the caller's |
| `SkipHeights.ClearsLowestOne` | src/chain.cpp:70 | n & (n - 1) removes the lowest set bit and keeps the bits above it |
| `SkipHeights.GetSkipHeight` | src/chain.cpp:73-81 | the skip height is below the height |
| `SkipHeights.OddSteps` | src/chain.cpp:83-107 | from an odd height to any target in its block of 2^k heights, at most OddBound(k) steps |
| `SkipHeights.BlockSteps` | src/chain.cpp:83-107 | from any height to any target in its block of 2^k heights, at most Bound(k) steps |
| `SkipHeights.StepsBounded` | src/chain.cpp:73-107 | a walk between heights of k bits takes at most Bound(k) steps |
| `SkipHeights.BoundClosed` | src/chain.cpp:77-79 | the bound is 3k - 8 + floor((k - 2)^2 / 4) |
| `SkipHeights.BoundMet` | src/chain.cpp:77-79 | no smaller bound holds: from 2^k - 8 to height 2 the walk takes exactly that many |
| `SkipHeights.AtMost110` | src/chain.cpp:77-79 | at most 110 steps to go back from any height up to 2^18, as the comment says, and exactly 110 from 2^18 - 8 to 2 |
| `Chain.BlockIndex.GetAncestor` | src/chain.cpp:83-107 | terminates at the block the parent walk reaches, for every height, whichever skips are taken; with all skip pointers set, in exactly the steps counted, at most 110 up to height 2^18 |
| `Chain.BlockIndex.BuildSkip` | src/chain.cpp:114-118 | sets the skip pointer, completes the path's pointers if its parent's were complete, and leaves every block valid |
| `Chain.ActiveChain.SetTip` | src/chain.cpp:11-21 | the early stop leaves the whole vector equal to the path of the tip |
| `Chain.ActiveChain.FindFork` | src/chain.cpp:51-60 | the highest common ancestor with the tip |
| `Chain.ActiveChain.GetLocator` | src/chain.cpp:23-49 | the blocks at the locator heights, with or without the chain index |
| `Chain.LocatorDescends` | src/chain.cpp:23-49 | from the start block strictly down to genesis |
| `Chain.LocatorExact` | src/chain.cpp:23-49 | the first eleven steps are single, each later one twice the one before, none below genesis |
| `Chain.LocatorShort` | src/chain.cpp:23-49 | at most 13 + log2(height + 1) entries |
| `Chain.LastCommonAncestor` | src/chain.cpp:154-169 | the highest common ancestor of two blocks |
| `ArithUint.AddAssign` | src/arith_uint256.h:141-151 | addition modulo 2 to the width, operands possibly the same; no 64-bit overflow |
| `ArithUint.Not` | src/arith_uint256.h:75-81 | the complement |
| `ArithUint.Increment` | src/arith_uint256.h:179-186 | plus one modulo 2 to the width |
| `ArithUint.Negate` | src/arith_uint256.h:83-90 | the two's complement |
| `ArithUint.SubAssign` | src/arith_uint256.h:153-157 | subtraction modulo 2 to the width |
| `ArithUint.MulAssign32` | src/arith_uint256.cpp:58-67 | product with a 32-bit number modulo 2 to the width; no 64-bit overflow |
| `ArithUint.MulRow` | src/arith_uint256.cpp:74-82 | one row of the schoolbook product, up to a multiple of the modulus; no 64-bit overflow |
| `ArithUint.MulAssign` | src/arith_uint256.cpp:70-83 | the product modulo 2 to the width; a number multiplied by itself in place becomes 0 |
| `ArithShift.ShiftLeft` | src/arith_uint256.cpp:24-38 | multiplication by a power of two modulo 2 to the width, for every shift |
| `ArithShift.ShiftRight` | src/arith_uint256.cpp:41-55 | floor division by a power of two, for every shift |
| `ArithShift.CompareTo` | src/arith_uint256.cpp:112-121 | the sign of the comparison |
| `ArithShift.Bits` | src/arith_uint256.cpp:174-186 | one plus the place of the highest set bit |
| `ArithDivide.DivAssign` | src/arith_uint256.cpp:86-109 | exact floor division; division by zero is reported and leaves zero |
| `ArithDivide.DivideStep` | src/arith_uint256.cpp:97-106 | one round sets the quotient bit exactly when the shifted divisor fits |
| `ArithDivide.DivAssign32` | src/arith_uint256.cpp:306-323 | the fast short division is exact floor division |
| `Pow.Assign64` | src/arith_uint256.h:94-101 | the number becomes the 64-bit value |
| `Pow.GetLow64` | src/arith_uint256.h:263-267 | the number modulo 2 to the 64 |
| `Pow.SetCompact` | src/arith_uint256.cpp:206-224 | the decoded value modulo 2 to the 256, and both flags |
| `Pow.GetCompact` | src/arith_uint256.cpp:226-247 | the encoding; both asserts hold |
| `Compact.DecodeFormula` | src/arith_uint256.h:278-299 | mantissa * 256^(exponent - 3), rounded down; negative exactly if the sign bit is set and that is not zero |
| `Compact.EncodeSign` | src/arith_uint256.cpp:226-247 | the sign changes no value, and zero is never negative |
| `Compact.RoundExact` | src/arith_uint256.cpp:206-247 | decode after encode is the largest multiple of the unit of the leading bits, never negative |
| `Compact.RoundBelow` | src/arith_uint256.cpp:206-247 | decode after encode never exceeds the number and is less than one unit below it |
| `Compact.RoundMonotone` | src/arith_uint256.cpp:206-247 | decode after encode is monotone |
| `Compact.EncodeStable` | src/arith_uint256.cpp:206-247 | encoding the rounded number gives the same compact number |
| `Compact.RoundTwice` | src/arith_uint256.cpp:206-247 | decode after encode is idempotent |
| `Compact.OverflowExact` | src/arith_uint256.cpp:216-223 | the overflow flag is set if and only if the value does not fit in 256 bits |
| `Compact.EncodeClean` | src/arith_uint256.cpp:206-247 | an encoded 256-bit number decodes with neither flag |
| `Compact.DecodeExact` | src/arith_uint256.cpp:206-247 | a decoded number is encoded without loss |
| `Difficulty.TargetNotMax` | src/chain.cpp:120-133 | a valid target plus one still fits, so the division is never by zero |
| `Difficulty.IsZero` | src/arith_uint256.cpp:123-135 | true exactly for zero |
| `Difficulty.GetBlockProof` | src/chain.cpp:120-133 | floor(2^256 / (target + 1)) for every valid nonzero target, else 0 |
| `Difficulty.CalculateNextWorkRequired` | src/pow.cpp:49-72 | the adjusted compact target with the 32-bit factor and the 256-bit product of the code |
| `Difficulty.ClampExact` | src/pow.cpp:54-59 | the span is raised to a quarter of the timespan, cut to four timespans, and else unchanged |
| `Difficulty.ProductExact` | src/pow.cpp:62-66 | the product with the 32-bit factor in 256 bits is the true one if and only if the target is 0 or factor and product fit, and never exceeds it |
| `Difficulty.NextTargetBounds` | src/pow.cpp:62-69 | the new target never exceeds min(powLimit, floor(old * clamped / T)), and is that when the product fits |
| `Difficulty.RetargetExact` | src/pow.cpp:49-72 | always a good target of at most four times the old one; when the product fits, the compact rounding of min(powLimit, floor(old * clamped / T)), at least that of the shortest span |
| `Difficulty.FitsExact` | src/pow.cpp:49-72 | every adjustment of every good target is that rounding if and only if powLimit rounds to 0, or four timespans fit in 32 bits and their product with the rounded powLimit in 256 |
| `Difficulty.FactorExample` | src/pow.cpp:62-66 | a timespan of 2^30 and a span of 2^32 seconds give target 0 instead of 4 |
| `Difficulty.HeadersFitExact` | src/pow.cpp:49-72 | for spans between 32-bit header times every adjustment is exact if and only if the product of the rounded powLimit and the longest such span fits, or the quarter timespan leaves 32 bits and powLimit is below 4 or 5 |
| `Difficulty.NetworksFit` | src/chainparams.cpp:117-121 | the limits of the main and test networks lose nothing and leave a quarter |
| `Difficulty.RegressionTestWraps` | src/chainparams.cpp:388-392 | under the limit of the regression-test network, which does not retarget, the product would wrap |
| `Difficulty.QuarterShortest` | src/pow.cpp:54-69 | for one target, the shortest span leaves a quarter of it if and only if (T % 4) * (old / 4) <= (old % 4) * (T / 4) |
| `Difficulty.QuarterKept` | src/pow.cpp:49-72 | where that holds every span leaves the compact rounding of a quarter |
| `Difficulty.QuarterExact` | src/pow.cpp:49-72 | where nothing wraps, every adjustment of every good target leaves the rounding of a quarter if and only if four divides the timespan or powLimit is below 4 |
| `Difficulty.QuarterExample` | src/pow.cpp:54-69 | timespan 10, target 40: the shortest span leaves 8, not 10 |
| `Difficulty.LastOrdinary` | src/pow.cpp:31-36 | the nearest block that is no minimum-difficulty exception, with everything above it one |
| `Difficulty.GetNextWorkRequired` | src/pow.cpp:13-47 | the bits NextWork asks for at every height, which NextWorkExact tells case by case; the assert on the first height holds |
| `Difficulty.NextWorkExact` | src/pow.cpp:13-47 | between adjustments the bits of the block before, unless minimum difficulty is allowed: then powLimit after twice the spacing, else those of the nearest ordinary block; at an adjustment the span from the first block of the interval |
| `Difficulty.SteadyTargets` | src/pow.cpp:17-44 | along a chain without minimum difficulty the bits stay the same from one adjustment to the next |
| `Difficulty.MinimumTargets` | src/pow.cpp:22-38 | along a chain with it, between adjustments, powLimit for a block more than two spacings late, else the bits of the nearest ordinary block |
| `Difficulty.TargetsGood` | src/pow.cpp:13-72 | on every chain that follows the rules every target is non-negative, without overflow and within powLimit |
| `Difficulty.TargetsMoveSlowly` | src/pow.cpp:13-72 | along such a chain an adjustment never exceeds four times the target before it; when the product fits it is the exact rounding, and a quarter is left under the condition of QuarterShortest |
| `Difficulty.HeaderTargets` | src/pow.cpp:13-72 | along such a chain with 32-bit times, where that condition holds, every adjustment is the exact rounding and leaves a quarter if four divides the timespan |
| `Base58.DecodeEncode` | src/base58.cpp:21-109 | decoding inverts encoding for every byte string |
| `Base58.EncodeExact` | src/base58.cpp:71-109 | a 1 for each leading zero byte, then the same number in base 58 without a leading 1 |
| `Base58.EncodeDecode` | src/base58.cpp:21-109 | encoding inverts decoding on every accepted string, up to the spaces around it |
| `Base58.AlphabetIs` | src/base58.cpp:18-19 | the alphabet is the 58 letters in code order, all different |
| `Base58Codec.BytesFit` | src/base58.cpp:81-82 | 256^100 <= 58^138 |
| `Base58Codec.LettersFit` | src/base58.cpp:34-35 | 58^1000 <= 256^733 |
| `Base58Codec.ByteRoom` | src/base58.cpp:81-82 | the encoder's buffer is large enough for every length |
| `Base58Codec.LetterRoom` | src/base58.cpp:34-35 | the decoder's buffer is large enough for every length |
| `Base58Codec.MulAdd` | src/base58.cpp:85-96 | buffer = buffer * base + digit, touching only the digits in use; the assert carry == 0 holds |
| `Base58Codec.Stripped` | src/base58.cpp:97-100 | the digits without leading zeros are the shortest form of the number |
| `Base58Codec.EncodeBase58` | src/base58.cpp:71-109 | the loops compute the encoding |
| `Base58Codec.ReadLetters` | src/base58.cpp:34-55 | the loops compute the digits of the word, failing exactly on a character outside the alphabet |
| `Base58Codec.DecodeBase58` | src/base58.cpp:21-69 | the loops compute the decoding, failures included |
| `Base58Codec.DecodeEncodeCheck` | src/base58.cpp:121-145 | the check-summed decoding inverts the check-summed encoding, for every hash |
| `Base58Codec.EncodeDecodeCheck` | src/base58.cpp:121-145 | and conversely on every accepted string |
| `Base58Codec.EncodeBase58Check` | src/base58.cpp:121-128 | computes the check-summed encoding |
| `Base58Codec.DecodeBase58Check` | src/base58.cpp:130-145 | computes the check-summed decoding, failures included |
| `RollingBloom.WipeTag` | src/bloom.cpp:256-265 | the mask clears exactly the positions tagged with the reused generation |
| `RollingBloom.WipeAt` | src/bloom.cpp:256-265 | so does the loop over all words, position by position |
| `RollingBloom.MarkAt` | src/bloom.cpp:268-275 | a position gets the current generation as its tag and no other changes |
| `RollingBloom.RollRecent` | src/bloom.cpp:250-266 | starting a generation keeps the marks of the latest full generations |
| `RollingBloom.InsertRecent` | src/bloom.cpp:248-276 | an insertion keeps all recent keys marked and adds its own |
| `RollingBloom.RunRecent` | src/bloom.cpp:248-276 | after any insertions the keys of the current and the two generations before it are marked |
| `RollingBloom.LatestContained` | src/bloom.cpp:284-296 | after any insertions contains is true for each of the last nElements keys |
| `RollingBloomExact.InsertExact` | src/bloom.cpp:248-276 | after an insertion every place carries the tag of the last key that marks it, if that is of the last three generations, else none |
| `RollingBloomExact.ContainsExact` | src/bloom.cpp:248-296 | after any insertions contains is true exactly if each place of the key is marked by a key of the last three generations |
| `BloomFilter.RollingFilter.Reset` | src/bloom.cpp:304-312 | in place: the empty filter, with the new tweak and nothing else changed |
| `BloomFilter.RollingFilter.WipeGeneration` | src/bloom.cpp:258-265 | in place: the wipe |
| `BloomFilter.RollingFilter.MarkHash` | src/bloom.cpp:268-275 | in place: one tagged position, low index bit ignored |
| `BloomFilter.RollingFilter.Insert` | src/bloom.cpp:248-276 | in place: the function on states |
| `BloomFilter.RollingFilter.Contains` | src/bloom.cpp:284-296 | true exactly when every position of the key carries a tag |
| `GPoWHeap.AcceptedExact` | src/gpow.h:311-318 | the accepted tries are exactly those below the target, in order, nonces wrapping at 32 bits |
| `GPoWHeap.ReplaceBest` | src/gpow.h:327-336 | replacing a largest element by a smaller hash leaves the m smallest accepted |
| `GPoWHeap.KeepBest` | src/gpow.h:327-336 | ignoring a hash that is not smaller leaves the m smallest accepted |
| `GPoWHeap.SumFits` | src/gpow.cpp:279-296 | the sum of at most m hashes fits in 288 bits and their average in 256 |
| `GPoWHeap.MeanExact` | src/gpow.h:302-358 | a sum cleared while hashes adding up to a base were kept gives the true average if and only if the base is at most the remainder |
| `GPoWHeap.ResumedExample` | src/gpow.h:302-358 | a kept hash of 5 replaced by 3 after the sum was cleared is averaged to 2^256 - 2 |
| `GPoW.CompareHashes` | src/gpow.cpp:118-128 | the sign of the comparison |
| `GPoW.AddHash` | src/gpow.cpp:316-328 | adds a 256-bit hash to the 288-bit sum, carry into the last word |
| `GPoW.MinusHash` | src/gpow.cpp:285-290 | subtracts a hash from the 288-bit sum, modulo its width |
| `GPoW.AvgHash` | src/gpow.cpp:292-296 | the exact quotient, cut to its low 256 bits |
| `GPoW.GNonces.IsNextmDone` | src/gpow.h:234-246 | advances the nonce with 32-bit wrap and tells whether to stop |
| `GPoW.GNonces.Enqueue` | src/gpow.h:316-326 | fills the queue and, when full, the heap |
| `GPoW.GNonces.Compete` | src/gpow.h:327-336 | a smaller hash displaces a largest one, in the heap and in the sum |
| `GPoW.GNonces.Mine` | src/gpow.h:311-355 | from any state of the set: terminates despite the continue; keeps the first accepted hashes, or the m smallest once m are accepted; tries tied to the budget from both sides, the reason it stops, and the nonce it ends at |
| `GPoW.GNonces.NextGPoW` | src/gpow.h:293-366 | for a new or resumed set: a done conservative set is left alone; else the average is that of the kept hashes less those kept before, floor(sum / m) for a new set, with the same ties to the budget |
| `CompactBlocks.FreeCount` | src/blockencodings.cpp:58-73 | after the checks there is exactly one free place per short id |
| `CompactBlocks.StoredExact` | src/blockencodings.cpp:80-85 | the 16-bit places kept for the short ids are the free places if and only if the message has at most 65536 transactions |
| `CompactBlocks.StoredExample` | src/blockencodings.cpp:80-85 | in the message of a block of 65537 transactions the last one is kept at place 0 |
| `CompactBlocks.WalkEnds` | src/blockencodings.cpp:81-84 | the walk to the first free place ends if and only if fewer than 65536 transactions are prefilled; no well-formed message has more |
| `CompactBlocks.BlockedExample` | src/blockencodings.cpp:81-84 | 65536 prefilled transactions at index 0 and one short id are well formed and have no free place in reach |
| `CompactExact.LaidExact` | src/blockencodings.cpp:58-73 | each prefilled transaction is at its place and the other places are free |
| `CompactExact.PlaceHolds` | src/blockencodings.cpp:104-163 | a place holds the only pool transaction with its short id, or without one the first extra one, exactly if every extra one with it has that witness hash; else it is free |
| `CompactExact.OneEachIs` | src/blockencodings.cpp:127-132 | the search of the pool stops early only when each short id was found in one entry |
| `CompactExact.FilledIs` | src/blockencodings.cpp:176-193 | the filled block has what the receiver held and, at the free places in order, what was sent |
| `CompactBlocks.Reconstructs` | src/blockencodings.cpp:48-218 | if no pool or extra transaction passes for another, the available and the missing ones in order give the block back |
| `CompactBlocks.FilledBack` | src/blockencodings.cpp:176-193 | filling in the missing transactions of a block gives the block |
| `CompactBlocks.FromBlockDescribes` | src/blockencodings.cpp:18-28 | the message made from a block is well formed and describes it |
| `CompactBlocks.RequestRoundTrip` | src/blockencodings.h:38-68 | index requests survive differential coding if and only if they strictly increase |
| `CompactBlocks.RequestAccepted` | src/blockencodings.h:42-61 | a request is read as strictly increasing indices if and only if its differences plus one each add up to at most 65536 |
| `CompactBlocks.AcceptedRequest` | src/blockencodings.h:42-67 | such a request codes back to itself |
| `CompactBlocks.WrappedRequest` | src/blockencodings.h:55-61 | the differences 65535 and 0 are read as the indices 65535 and 0 |
| `PartialBlock.PartiallyDownloadedBlock.Prefill` | src/blockencodings.cpp:58-73 | places the prefilled transactions, refusing exactly the malformed messages |
| `PartialBlock.PartiallyDownloadedBlock.FindFree` | src/blockencodings.cpp:82-84 | the 16-bit offset walk stays in range and stops at the free place of its turn, or comes back to where it started if and only if it never ends |
| `PartialBlock.PartiallyDownloadedBlock.MapIds` | src/blockencodings.cpp:80-102 | short ids map in order onto the free places modulo 65536, one to one unless two are equal; exactly when it does not end or gives up |
| `PartialBlock.PartiallyDownloadedBlock.OfferPool` | src/blockencodings.cpp:109-125 | one pool transaction: taken, or cancelling an earlier one |
| `PartialBlock.PartiallyDownloadedBlock.OfferExtra` | src/blockencodings.cpp:135-157 | one extra transaction: taken, or cancelling one with another witness hash |
| `PartialBlock.PartiallyDownloadedBlock.ScanPool` | src/blockencodings.cpp:104-132 | what the scanned pool settles on; it stops early only when every short id was found once |
| `PartialBlock.PartiallyDownloadedBlock.ScanExtra` | src/blockencodings.cpp:134-163 | the same for the extra transactions |
| `PartialBlock.PartiallyDownloadedBlock.InitData` | src/blockencodings.cpp:48-168 | for every message exactly when the result is invalid or failed and when the call does not return; else, up to 65536 transactions, what is at every place |
| `PartialBlock.PartiallyDownloadedBlock.FillBlock` | src/blockencodings.cpp:176-218 | the filled block and status; too few or too many transactions are invalid |
| `PartialBlock.FilledCount` | src/blockencodings.cpp:176-197 | filling succeeds exactly with as many transactions as there are free places |
| `PartialBlock.WriteIndexes` | src/blockencodings.h:62-67 | computes the differences |
| `PartialBlock.ReadIndexes` | src/blockencodings.h:42-61 | computes the running sums in place, failing exactly on 16-bit overflow |
| `BlockRelay.Requested` | src/net_processing.cpp:2085-2089 | the request is the free places in order |
| `BlockRelay.SendBlockTransactions` | src/net_processing.cpp:1162-1172 | the transactions at the requested places, or nothing when one is beyond the block |
| `BlockRelay.PickedMissing` | src/net_processing.cpp:1162-1172 | what the sender picks for the request is what the receiver misses, in order |
| `BlockRelay.RequestArrives` | src/blockencodings.h:38-68 | the request of a block of at most 65536 transactions survives its coding |
| `BlockRelay.Relay` | src/blockencodings.cpp:18-218 | from a block through message, pool, extra transactions, request and answer back to the same block, with short ids made from any id, whenever they are distinct and uncrowded and none is mistaken; failed exactly when they are not |

## Left out

- Networking, RPC, start-up, the database and file formats, logging and script execution: plumbing around the parts above.
- `CAddrMan::Select_` and `GetChance`: floating point and a loop that ends only with probability one.
- `CAddrMan::Unserialize` over a used object: `Clear` leaves `mapInfo` and `mapAddr` as they are; only reading into a new manager is modelled, and only the values of the stream, not its bytes.
- Coin caches: the best-block hash, memory counters and the meaning of `SpendCoin`'s result for an entry already spent.
- Block assembler: fee rates are compared as exact products, not as doubles; that the pool's index is sorted by fee rate is required, not proved.
- Check queue: `fQuit`, which nothing sets; a thread's batch is one step and every locked section is one step.
- Cuckoo cache: the floating-point logarithm that sets the depth limit; the limit is a parameter.
- `arith_uint256`: `getdouble`, hexadecimal forms, bitwise operators, the 64-bit short division and the templated `bits` helper.
- Partial Merkle trees: the bound of 2N-1 flag bits in the comment at src/merkleblock.h:47; one-child nodes add bits of their own. `BuildSizes` bounds the hashes instead.
- GPoW: the GMP variant of the arithmetic, the statistics counters, and `CheckGPoW`; which of equal largest hashes leaves the heap is left open.
- Bloom filter: the sizing by logarithms in the constructor; the number of words and hash functions are parameters.
- PartialBlock.PartiallyDownloadedBlock.InitData: a call that does not return is the status Endless; beyond 65536 transactions only the status and the number of places are described; after an invalid or failed result the object is not.
- Difficulty.GetNextWorkRequired: the chain is the list of its headers by height; that `GetAncestor` finds them is `Chain.BlockIndex.GetAncestor`.
- Base58: strings are C strings without a zero character, spaces those of the C locale.
- `limitedmap`, amount and script compression, the plain Bloom filter, the HTTP work queue and the example contracts.
