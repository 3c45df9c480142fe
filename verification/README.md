# Electrum core: verified model of its core components

This project models the parts of the node on which much of the rest relies, and proves what each of them is for. Every
component has a value-level definition of what the code does, lemmas about it, and, where the source updates state in
place, methods and classes with loops whose contracts tie them to that definition. `dafny verify dfyconfig.toml` checks
everything.

| files | component |
|---|---|
| Coins, CoinsCache, StateViews | the layered cache of unspent outputs (`CStateViewCache`, coins part) |
| VarInts, Compressor, CoinsCodec | the serialized form of `CCoins`, with compressed outputs and variable-length integers |
| AddrBook, AddrOps, AddrMan, AddrCheck | the address manager (`CAddrMan`) and its consistency check |
| AddrEffects, AddrHistory | what its operations do entry by entry, and what it remembers of an address over a run |
| AddrFile, AddrLoad, AddrAccept, AddrRecords | its saved form, reading it back, and which files give a consistent manager |
| CheckQueue | the master and worker protocol of `CCheckQueue` |
| CompactBlock, IndexCodec | compact block relay and the differential index encoding (BIP 152) |
| Limbs, LimbShifts, LimbDivision, CompactTarget | 256-bit arithmetic, compact targets, block proof |
| RollingBloom | the rolling bloom filter |
| BlockChain | the block index with skip pointers and the active chain |
| Radix, Base58 | Base58 and Base58Check |
| Amounts | compressed amounts |
| Numbers, Options, Sequences | powers, quotients, an optional value, sequences |

How things are represented:

- The cache stack is a sequence of caches over a bottom map. A run is a sequence of operations on it, and the reference
  is a plain map per level, updated by the same operations.
- The address manager is a `Book` holding its five indexes and counters. `Passes` is what `Check_` tests; `Consistent`
  adds what it does not look at, namely the id counter and names without an entry. The keyed hashes are functions
  without assumptions, reduced to the table ranges. Random numbers are parameters.
- The check queue is a state machine. One step is one critical section, the evaluation of one check, or one call of `Add`;
  threads are interleaved freely, and a waiting thread may wake up without having been notified.
- Hashes (SipHash, MurmurHash3, SHA-256) are function parameters. The block check, the bucket size test and the memory
  pool are parameters of the compact block operations.
- Integers are unbounded. 16-, 32- and 64-bit arithmetic is written out as remainders wherever the source can wrap:
  limbs, compact targets, amounts, slot numbers, differential indexes. The words of the bloom filter are bit vectors.

Where the code does not do what one would expect of it, the model follows the code and the exact condition is proved:

- `ModifyNewCoins(txid, false)` marks an entry FRESH without looking. Coins written through it reach the view below with
  a flush exactly when they are unspent or that view had nothing unspent (`ModifyNewNeedsAbsence`), and a later spend of
  them exactly in the second case (`SpentAfterNew`). So it is right for whatever is written afterwards exactly when the
  view below has nothing unspent (`ModifyNewExactly`; `SpentComesBack` is an input).
- `ModifyNewCoins` records usage 0 for an entry that is already cached, so `cachedCoinsUsage` counts its old size until
  the cache is flushed. The counter stays exact exactly when that size is 0 (`UsageExactIff`; `OvercountedOutput`).
- `Good_` with a time of 0 or below and `Attempt_` with a negative time leave a state that `Check_` rejects, exactly
  for known addresses (`GoodKeeps`, `AttemptKeeps`; `GoodAtZero`, `AttemptBeforeZero`).
- `Check_` looks names up with an operator that inserts 0, so an entry with id 0 and no name passes, and has a name
  afterwards (`AddrCheck.Check`, `ConsistentExactly`; `NameLost` is a file that gives such a manager).
- `Add_` answers true for every new routable address, also when the address is dropped at once (`NewAddressKept` says
  when it stays; `AddressDropped`).
- A file of addresses is read without an error also when the result is inconsistent. It is consistent exactly when the
  counts are not negative, no record that is kept shares its address with another record that is stored, and the times
  of last success are in order, where the file alone tells which records are stored and kept (`LoadedExactly`;
  `NeverSucceeded`). `Check_` accepts it also when the first new record shares its address with new records that get no
  place (`NameLost`).
- Slot numbers of compact blocks are 16 bits wide. With 65536 prefilled transactions and a short id the inner loop of
  `InitData` never ends, and this is the only such case (`AllTakenExactly`; `EndlessMessage`). The numbers stored are
  right exactly for messages of at most 65536 transactions (`SlotsStored`), and so are the slots (`ReceivedExactly`);
  otherwise a pool transaction can even replace a prefilled one (`PrefilledReplaced`).
- The decoder of differential indexes lets its offset wrap after index 65535, so it accepts messages that no sender
  writes. The indexes increase exactly when the numbers and their count add up to at most 65536 (`DecodeEncode`;
  `WrappedOffset`).
- `a *= a` on 256-bit numbers clears its own operand and gives 0. That is right exactly when the lower half of the number
  is zero (`MulAssign`, `SquareVanishes`; `SquareOfOneLost`).
- `CompressAmount` wraps for large amounts. An amount survives the 64-bit round trip exactly when it ends in zero or its
  compressed form is below 2^64 (`Amounts.RoundTripExactly`), which that of the largest possible amount is not
  (`LargestAmountLost`).
- A script of more than 10000 bytes is replaced when it is read. So serialized `CCoins` come back exactly when version
  and height are not negative, no spent output inside `vout` carries a script, and no available output has an overlong
  script or an amount that wraps (`CoinsCodec.RoundTripExactly`; `LargestCoinsLost`).
- Two examples in the documentation of variable-length integers, for 16511 and 65535, are not what the code writes
  (`ExamplesDiffer`).
- The step of a block locator overflows a 32-bit integer exactly for heights above 2^30 + 9 (`StepFits`;
  `StepOverflows`).

## Model

| member | source | states |
|---|---|---|
| Coins.Cleanup | src/coins.h:124-129 | The loop removes exactly the spent outputs at the end. |
| Coins.TrimKeepsAvailable | src/coins.h:124-129 | Cleaning up changes neither which outputs are available nor what they are. |
| Coins.CleanPrunedIsEmpty | src/coins.cpp:657-664 | On cleaned-up coins the test `vout.empty()` of `HaveCoins` is the same as being pruned. |
| Coins.Spend | src/coins.cpp:39-46 | Spending fails exactly on a missing or spent output; otherwise that output and no other becomes unavailable, and the result is clean. |
| Coins.MallocBlock | src/memusage.h:47-53 | A block takes the next multiple of 16 bytes that leaves 16 for the allocator; nothing takes nothing. |
| CoinsCache.FetchAnswer | src/coins.cpp:119-135 | A lookup answers what the stack below holds, and caches it. |
| CoinsCache.FetchColumn | src/coins.cpp:119-135 | Caching an answer on the way changes no view of any level and keeps every flag sound. |
| CoinsCache.FetchAny | src/coins.cpp:119-135 | The same for every other transaction id. |
| CoinsCache.MergeKeeps | src/coins.cpp:731-764 | In all cases of merging a child entry, the merged entry shows what the child showed, and its FRESH and DIRTY flags are sound against the level below. |
| CoinsCache.FlushColumn | src/coins.cpp:725-768 | After a flush the parent sees what the child saw, for every id, and all flags stay sound, whether the parent is a cache or the bottom. |
| CoinsCache.PushRefines | src/coins.cpp:107-107 | A new empty cache shows what its base shows. |
| CoinsCache.DiscardRefines | src/coins.cpp:109-113 | Dropping a cache leaves the views below as they were. |
| CoinsCache.ReadRefines | src/coins.cpp:241-248 | Reading at any level answers the plain map's value and changes no view. |
| CoinsCache.EvictRefines | src/coins.cpp:841-848 | Uncaching an entry without flags changes no view. |
| CoinsCache.UncacheExactly | src/coins.cpp:841-848 | Exactly an entry without flags leaves the cache, its memory is no longer counted, and nothing else changes. |
| CoinsCache.ModifyRefines | src/coins.cpp:399-418 | Opening a modifier changes no view and gives a sound, dirty entry. |
| CoinsCache.ModifyNewRefines | src/coins.cpp:490-499 | A new entry shows nothing, and is sound if the base view has nothing unspent or it is a coinbase. |
| CoinsCache.WriteRefines | src/coins.cpp:906-909 | Writing through the modifier updates the plain map at that id only. |
| CoinsCache.DoneRefines | src/coins.cpp:911-923 | Closing the modifier, which cleans up and may erase the entry, changes no view. |
| CoinsCache.FlushRefines | src/coins.cpp:828-839 | Flushing replaces the parent's plain map by the child's. |
| CoinsCache.StepRefines | src/coins.cpp:725-768 | Every legal operation keeps the stack in step with the plain maps and keeps the flag invariant. |
| CoinsCache.RunRefines | src/coins.cpp:725-768 | Every legal run of any length, on stacks of any depth, behaves like plain maps updated by the same operations. |
| CoinsCache.StartRefines | src/coins.cpp:107-107 | A stack over any bottom map starts in step. |
| CoinsCache.ModifyNewNeedsAbsence | src/coins.cpp:490-499 | Coins written without the check show in the cache, and in the view below after a flush, exactly when they are unspent or that view had nothing unspent under the id. |
| CoinsCache.SpentAfterNew | src/coins.cpp:490-499 | Unspent coins written without the check and spent later: the spend shows, before and after a flush, exactly when the view below had nothing unspent. |
| CoinsCache.ModifyNewExactly | src/coins.cpp:490-499 | Every pair of writes, the first without the check, reaches the view below exactly when that view has nothing unspent under the id. |
| CoinsCache.SpentComesBack | src/coins.cpp:490-499 | An input: an unspent output in the database is still there after an empty entry was written over it and flushed. |
| CoinsCache.CreatedFresh | src/coins.cpp:399-418 | Coins created where nothing unspent is below are DIRTY and FRESH once written. |
| CoinsCache.FreshSpent | src/coins.cpp:911-923 | FRESH coins that are spent leave no entry. |
| CoinsCache.CreatedAndSpent | src/coins.cpp:731-764 | Coins created in one cache, flushed into the next and spent there leave no entry in either: a flush hands FRESH on, and a spent output read on the way is FRESH too. |
| CoinsCache.StepDrift | src/coins.cpp:911-923 | How far `cachedCoinsUsage` is off after each operation, given how far it was off before. |
| CoinsCache.UsageExactIff | src/coins.cpp:490-499 | From an exact counter, every operation leaves it exact except creating coins over a cached entry that uses memory. |
| CoinsCache.OvercountedOutput | src/coins.cpp:490-499 | An input: a legal call after which the counter is 64 bytes too high. |
| CoinsCache.RunUsageExact | src/coins.cpp:115-117 | In every run without that case, `cachedCoinsUsage` is the exact sum over the cached entries whenever no modifier is open. |
| CoinsCache.StepClean | src/coins.cpp:911-923 | Every operation leaves all cached coins cleaned up, but for the one under an open modifier. |
| CoinsCache.HaveIsUnspent | src/coins.cpp:657-664 | In such states `HaveCoins` answers exactly whether there is something unspent. |
| StateViews.ViewStack.FetchCoins | src/coins.cpp:119-135 | The walk down the caches and the inserts on the way back produce the state of the definition. |
| StateViews.ViewStack.GetCoins | src/coins.cpp:241-248 | Returns the coins that the definition finds. |
| StateViews.ViewStack.HaveCoins | src/coins.cpp:657-664 | Returns whether the coins found have any output. |
| StateViews.ViewStack.ModifyCoins | src/coins.cpp:399-418 | The new state, entry flags and recorded usage. |
| StateViews.ViewStack.ModifyNewCoins | src/coins.cpp:490-499 | The new state, with FRESH set without a check. |
| StateViews.ViewStack.CloseModifier | src/coins.cpp:911-923 | The destructor's cleanup, erase and accounting. |
| StateViews.ViewStack.UncacheCoins | src/coins.cpp:841-848 | The entry goes only if it has no flags. |
| StateViews.ViewStack.MergeOne | src/coins.cpp:731-764 | One iteration of the merge loop: entry and counter. |
| StateViews.ViewStack.MergeAll | src/coins.cpp:730-768 | The loop over the child's entries, in any order, gives the pointwise merge and the right counter. |
| StateViews.ViewStack.BatchWrite | src/coins.cpp:725-768 | Writing into a parent cache. |
| StateViews.ViewStack.BatchWriteBottom | src/txdb.cpp:248-260 | Writing into the database: dirty entries are stored, pruned ones erased, others left alone. |
| StateViews.ViewStack.FlushTop | src/coins.cpp:828-839 | Flush of the top cache, including the reset of its counter. |
| VarInts.ReadVarIntBack | src/serialize.h:320-386 | Every number is read back from its bytes, followed by anything, and exactly its bytes are consumed. |
| VarInts.OneEncoding | src/serialize.h:320-342 | Whatever bytes are read as a number begin with the one encoding of that number: nothing else is read as it. |
| VarInts.Lengths | src/serialize.h:329-330 | One byte exactly up to 127, two up to 16511, three up to 2113663. |
| VarInts.Examples | src/serialize.h:336-341 | The documented examples for 0, 1, 127, 128, 255, 256, 16383, 16384 and 2^32. |
| VarInts.ExamplesDiffer | src/serialize.h:336-341 | The documented bytes for 16511 and 65535 are not those the code writes. |
| VarInts.ReadSignedBack | src/serialize.h:357-386 | A signed number is read back exactly when it is not negative. |
| VarInts.FiveBytesSuffice | src/serialize.h:360-360 | The buffer for a 32-bit number is large enough. |
| VarInts.WriteVarInt | src/serialize.h:357-372 | The loops write the encoding. |
| VarInts.GetSizeOfVarInt | src/serialize.h:344-355 | The size is the number of bytes written. |
| VarInts.ReadVarInt | src/serialize.h:374-386 | The loop reads as defined, and fails on a stream that ends early. |
| Compressor.LengthenedShortened | src/compressor.cpp:12-131 | A script of one of the six special shapes is rebuilt from its short form, given that a valid key can be found again from one coordinate and a parity. |
| Compressor.ShortenedExactly | src/compressor.cpp:12-77 | Exactly the scripts that pay to a 20-byte key hash or script hash, to a compressed key, or to a valid uncompressed key have a short form. |
| Compressor.KeyHashWritten | src/compressor.cpp:48-56 | A payment to a key hash is written as 0 and the hash. |
| Compressor.ScriptHashWritten | src/compressor.cpp:57-63 | A payment to a script hash is written as 1 and the hash. |
| Compressor.ShortKeyWritten | src/compressor.cpp:64-70 | A payment to a compressed key is written as the key itself. |
| Compressor.LongKeyWritten | src/compressor.cpp:64-74 | A payment to a valid uncompressed key is written as 4 or 5, by the parity of the second coordinate, and the first one. |
| Compressor.OtherWritten | src/compressor.h:66-77 | Every other script is written as its length plus 6 and its bytes. |
| Compressor.ReadScriptBack | src/compressor.h:66-97 | Every script is read back, followed by anything, from exactly its bytes; one of more than 10000 bytes comes back as `OP_RETURN`. |
| Compressor.ReadOutBack | src/compressor.h:112-126 | An output is read from exactly its bytes, as a described output. |
| Compressor.ReturnedExactly | src/compressor.h:112-126 | That output is the one written exactly when its script is not overlong and its amount, taken as 64 bits, fits when compressed. |
| CoinsCodec.CalcMaskSize | src/coins.cpp:21-37 | The nested loops find the last used mask byte and count the used ones. |
| CoinsCodec.SomeFlag | src/coins.h:200-200 | The assertion of `Serialize` holds for coins that are not pruned. |
| CoinsCodec.ReadMaskBack | src/coins.h:234-245 | The mask loop, which only counts bytes other than zero, consumes exactly the bytes written. |
| CoinsCodec.CodeBack | src/coins.h:228-234 | The header code is taken apart into what it was made of. |
| CoinsCodec.UnserializeSerialized | src/coins.h:195-255 | Reading what was written consumes exactly that and gives a described result, for all coins and with the compressed outputs of the source. |
| CoinsCodec.RoundTripExactly | src/coins.h:148-255 | The result equals the cleaned-up coins, up to `==`, exactly when version and height are not negative, spent outputs carry no script, and available outputs have no overlong script and no amount that wraps. |
| CoinsCodec.LargestCoinsLost | src/amount.h:31-32 | An input: coins with one output of the largest amount of money do not come back. |
| CoinsCodec.Serialize | src/coins.h:195-221 | The loops write the defined bytes. |
| CoinsCodec.GetSerializeSize | src/coins.h:171-192 | The size is the number of bytes `Serialize` writes. |
| CoinsCodec.Unserialize | src/coins.h:224-255 | The loops read as defined, including streams that end early. |
| AddrBook.EmptyConsistent | src/addrman.h:453-477 | A new manager is consistent. |
| AddrBook.RandomSize | src/addrman.cpp:387-400 | `vRandom` has `nTried + nNew` places, one for each entry. |
| AddrBook.RandomFilled | src/addrman.cpp:392-417 | If every entry is found at its place in `vRandom` and the sizes agree, every place holds an entry that knows it. |
| AddrBook.ConsistentExactly | src/addrman.cpp:387-461 | The invariant is what `Check_` tests together with the id counter, the names without an entry and the name of entry 0. |
| AddrBook.PassesExactly | src/addrman.cpp:387-461 | With all indexes in step, what `Check_` tests holds exactly when the invariant does. |
| AddrBook.SwapKeeps | src/addrman.cpp:100-118 | Swapping two places keeps every index in step. |
| AddrBook.DeleteKeeps | src/addrman.cpp:120-132 | Deleting an unreferenced entry keeps the invariant. |
| AddrBook.ClearKeeps | src/addrman.cpp:134-147 | Clearing a slot of the new table, with the deletion it may cause, keeps the invariant, reference counts included. |
| AddrBook.NewcomerKeeps | src/addrman.cpp:88-98 | Creating an entry keeps all indexes in step. |
| AddrBook.PutKeeps | src/addrman.cpp:304-307 | Referring to an entry from a free slot keeps counts and table in step. |
| AddrBook.ForgetKeeps | src/addrman.cpp:151-161 | Removing an entry from all new buckets leaves it with no references. |
| AddrOps.EvictKeeps | src/addrman.cpp:167-189 | Moving the occupant of a tried slot back into the new table, with the clearing this may cause, keeps the invariant. |
| AddrEffects.Cleared | src/addrman.cpp:134-147 | The entry in a cleared slot loses one reference, and goes with the last one; the slot is free, and no other entry or slot changes. |
| AddrEffects.Evicted | src/addrman.cpp:167-189 | The occupant of a tried slot stays an entry with its id, service and statistics. It is not tried, has one reference, and is in the new slot of its own source, where it pushes out what `Cleared` says and nothing more. |
| AddrOps.MakeTriedKeeps | src/addrman.cpp:149-195 | `MakeTried` keeps the invariant, and none of its asserts can fail. |
| AddrOps.GoodKeeps | src/addrman.cpp:197-247 | After `Good_` a known address is tried with that time; what `Check_` tests, and the whole invariant, hold exactly for a positive time or an unknown address. |
| AddrEffects.GoodMoves | src/addrman.cpp:149-247 | `Good_` of a new entry, on every index: it leaves all its new slots and takes its tried slot, with the success noted. The entry before in that slot is back in the new table with one reference. Only the entry that held that new slot as its last reference disappears, and every other one is unchanged up to its place in `vRandom`. |
| AddrEffects.GoodNotes | src/addrman.cpp:197-223 | Of a tried address `Good_` notes the success only, of an unknown one only when any address last succeeded. |
| AddrOps.AddKeeps | src/addrman.cpp:249-315 | `Add_` keeps the invariant for every input. |
| AddrOps.KnownAddressKept | src/addrman.cpp:257-291 | Adding a known address keeps its entry, adds the services and never moves its time back. |
| AddrOps.NewAddressKept | src/addrman.cpp:249-315 | A new address answered with true is kept exactly when its slot was free or its occupant may be overwritten. |
| AddrEffects.AddsNew | src/addrman.cpp:286-314 | A new address that is kept has its penalised time and one reference, in the slot of its source; the occupant there loses one, and goes with the last. One that is not kept has changed no entry and no slot. |
| AddrEffects.AddsKnown | src/addrman.cpp:258-307 | A known address takes the time over exactly if it is newer by more than the penalty and an hour or a day, adds the services, and gets a further reference exactly if it is new, has fewer than 8, the announcement is newer, the draw is one in 2 to the number it has, and its slot is free or held by another, terrible entry. |
| AddrEffects.AttemptNotes | src/addrman.cpp:317-337 | `Attempt_` sets the time of the last try of a known address, and counts a failure exactly if it is to count and the last one counted is before the last success of any address; no other entry and no index changes. |
| AddrEffects.ConnectedNotes | src/addrman.cpp:485-503 | The time of a known address moves exactly if the new one is more than 20 minutes later; nothing else changes. |
| AddrEffects.SetServicesNotes | src/addrman.cpp:505-521 | The services of a known address are those given; nothing else changes. |
| AddrEffects.TerribleExactly | src/addrman.cpp:33-52 | When an address is terrible, in seconds and attempts. |
| AddrEffects.QuotaIs | src/addrman.cpp:464-468 | The quota is the greatest number that is at most 2500 and at most 23 percent of the addresses. |
| AddrHistory.StepLives | src/addrman.cpp:197-337 | Whatever an operation does to others, the statistics of connections of an entry that stays change as its own history says. |
| AddrHistory.HistoryExactly | src/addrman.cpp:197-337 | Over every run from every consistent state, an entry that is still there has exactly the attempts, tries and successes of its own history, a fold over the operations that does not look at the manager. |
| AddrHistory.RoundsLived | src/addrman.cpp:317-337 | A failure counts once per success of another address: after n rounds of such a success and a failure, with any other operations in between, n more failures are counted. |
| AddrHistory.FailuresGivenUp | src/addrman.cpp:33-52 | An address that never answered is terrible more than a minute after the third counted failure, and `GetAddr_` does not hand it out, whatever else has happened. |
| AddrOps.AttemptKeeps | src/addrman.cpp:317-337 | What `Check_` tests, and the whole invariant, hold after `Attempt_` exactly for a time that is not negative or an unknown address. |
| AddrOps.ConnectedKeeps | src/addrman.cpp:485-503 | `Connected_` keeps the invariant. |
| AddrOps.SetServicesKeeps | src/addrman.cpp:505-521 | `SetServices_` keeps the invariant. |
| AddrOps.GatherKeeps | src/addrman.cpp:464-483 | `GetAddr_` only reorders `vRandom` and keeps the invariant. |
| AddrOps.GatherResult | src/addrman.cpp:464-483 | It hands out different entries that are not terrible, as many as the quota allows or as there are. |
| AddrOps.StepKeeps | src/addrman.cpp:387-461 | Every operation with proper times keeps the invariant. |
| AddrOps.Run | src/addrman.cpp:387-461 | Every run from an empty manager ends in a consistent state. |
| AddrOps.GoodAtZero | src/addrman.cpp:197-247 | An input: after one `Add_` and `Good_` at time 0, what `Check_` tests does not hold. |
| AddrOps.AttemptBeforeZero | src/addrman.cpp:317-337 | An input: the same for `Attempt_` at time -1. |
| AddrOps.AddressDropped | src/addrman.cpp:308-312 | An input: a second address with the same slot is answered with true and is not there. |
| AddrCheck.CheckEntry | src/addrman.cpp:396-418 | The tests on one entry give the code of the first that fails, and the lookup may add a name. |
| AddrCheck.CheckEntries | src/addrman.cpp:395-419 | The loop over the entries, in any order, passes exactly when every entry does, and sorts the ids into tried ones and new ones with their references. |
| AddrCheck.CheckTried | src/addrman.cpp:426-438 | Crossing off the occupants of the tried table leaves nothing exactly when the table is right; every error means that it is not. |
| AddrCheck.CheckNew | src/addrman.cpp:440-451 | Counting the references of the new table down leaves nothing exactly when table and reference counts agree; every error means that they do not. |
| AddrCheck.BlamesRightly | src/addrman.cpp:387-461 | Each error code names a fault of the manager, so none is given to a manager that passes and has a key. |
| AddrCheck.Check | src/addrman.cpp:387-461 | `Check_` returns 0 exactly when there is a key and every part of the invariant that it determines holds; every other code names its fault. |
| AddrMan.Manager.constructor | src/addrman.h:453-477 | The arrays start empty. |
| AddrMan.Manager.SwapRandom | src/addrman.cpp:100-118 | State after the swap. |
| AddrMan.Manager.Delete | src/addrman.cpp:120-132 | State after the deletion; the asserts hold. |
| AddrMan.Manager.ClearNew | src/addrman.cpp:134-147 | State after clearing a slot. |
| AddrMan.Manager.ForgetNew | src/addrman.cpp:151-161 | The loop over all buckets finds every reference, so the count drops to zero. |
| AddrMan.Manager.MakeRoom | src/addrman.cpp:167-189 | State after freeing the tried slot of an entry. |
| AddrMan.Manager.MakeTried | src/addrman.cpp:149-195 | State after moving an entry, eviction included. |
| AddrMan.Manager.FindBucket | src/addrman.cpp:226-236 | The loop from a random start finds a bucket of the entry exactly when there is one. |
| AddrMan.Manager.Good | src/addrman.cpp:197-247 | State after `Good_`. |
| AddrMan.Manager.Add | src/addrman.cpp:249-315 | State and answer of `Add_`. |
| AddrMan.Manager.Create | src/addrman.cpp:88-98 | State after creating an entry. |
| AddrMan.Manager.Attempt | src/addrman.cpp:317-337 | State after `Attempt_`. |
| AddrMan.Manager.Connected | src/addrman.cpp:485-503 | State after `Connected_`. |
| AddrMan.Manager.SetServices | src/addrman.cpp:505-521 | State after `SetServices_`. |
| AddrMan.Manager.GetAddr | src/addrman.cpp:464-483 | State after the partial shuffle, and the addresses handed out. |
| AddrMan.ComputeFactor | src/addrman.cpp:281-283 | The doubling loop computes two to the number of references. |
| AddrFile.FlipsBit30 | src/addrman.h:304-304 | The number of buckets is written with bit 30 flipped: no other bit changes, flipping again gives the number back, and 1024 is written as 0x40000400. |
| AddrFile.ReloadIs | src/addrman.h:58-77 | An entry is read with the fields of its record, and with no try since. |
| AddrFile.OrderIs | src/addrman.h:306-325 | The entries are written new ones first, each once, and the counters agree with the numbers written. |
| AddrFile.RenamedConsistent | src/addrman.cpp:387-461 | A manager that differs from a consistent one only by a renaming of ids and reset memory-only fields is consistent. |
| AddrLoad.WithinLimits | src/addrman.h:363-369 | A consistent manager never exceeds the limits that make reading fail. |
| AddrLoad.SlotIsFree | src/addrman.h:393-409 | No tried entry of a saved manager is lost to a collision. |
| AddrLoad.IndexRead | src/addrman.h:416-427 | Reading the index of a slot puts the right entry back into that slot, never hitting the limit of references. |
| AddrLoad.FilledRandom | src/addrman.h:343-428 | Whatever a file holds, `vRandom` and the entries agree when pruning starts. |
| AddrLoad.RoundTrip | src/addrman.h:293-446 | Saving a consistent manager and loading it loses no entry, restores both tables slot by slot up to a renaming of ids, and is consistent again. |
| AddrLoad.Serialize | src/addrman.h:293-340 | The loops write the defined file. |
| AddrLoad.SaveNew | src/addrman.h:306-316 | The assertion that fewer than `nNew` entries were written holds, and each id gets its number. |
| AddrLoad.SaveTried | src/addrman.h:317-325 | The assertion that fewer than `nTried` entries were written holds. |
| AddrLoad.Unserialize | src/addrman.h:343-446 | Reading any file, with its errors, lost entries and pruning, gives the defined result. |
| AddrAccept.FilledIs | src/addrman.h:372-428 | Whatever a file with counts that are not negative holds, both tables, the reference counts and the counters agree with the entries before pruning. |
| AddrAccept.PrunedIs | src/addrman.h:430-440 | Pruning removes exactly the new entries without a place, with their names, and keeps tables and counters in step. |
| AddrAccept.NamesExactly | src/addrman.h:430-440 | After pruning the names are right exactly when no entry that is kept shares its address with any other entry. |
| AddrAccept.CheckedNamesExactly | src/addrman.h:430-446 | The test of names that `Check_` makes then passes exactly when this holds of every entry that is kept, or the entry is 0 and shares its address with a pruned one. |
| AddrRecords.FirstComeKept | src/addrman.h:378-388 | Without usable positions a new record gets its own slot exactly when no new record before it has the same. |
| AddrRecords.SoFarNext | src/addrman.h:393-409 | A tried record is stored exactly when no tried record before it has its slot, and then under the id that follows from the number stored. |
| AddrRecords.ListsFair | src/addrman.h:412-428 | The table of the first-come rule, whatever the lists: every place is one that they name, no record has more than eight, and a record is passed over only for a slot that is taken or when it has its eight. |
| AddrRecords.LostExactly | src/addrman.h:412-440 | With usable positions a new record is lost exactly when every slot that the lists name for it is another record's. |
| AddrRecords.IndexPlaces | src/addrman.h:416-427 | Reading one index does to the new table what the first-come rule with its limit of eight says, from the records alone. |
| AddrRecords.FilledRecords | src/addrman.h:343-428 | Before pruning every stored record is an entry under its id, and the new table is the one told from the records and the bucket lists. |
| AddrRecords.LoadedExactly | src/addrman.h:343-446 | On the records and bucket lists alone: a file gives a consistent manager exactly when its counts are not negative, no kept record shares its address with another stored record, and the last success is not negative, and positive for tried records; and exactly when `Check_`, which ends the reading, accepts it. |
| AddrRecords.NeverSucceeded | src/addrman.h:393-410 | An input: a file that is read without an error into a manager that is inconsistent and that `Check_` rejects. |
| AddrRecords.NameLost | src/addrman.h:430-446 | An input: a file with a record twice is read into an inconsistent manager that `Check_` accepts. |
| CheckQueue.BatchFits | src/checkqueue.h:109-109 | A batch is never empty and never larger than the queue. |
| CheckQueue.TakenExactly | src/checkqueue.h:104-118 | A batch is the end of the queue, and as large as fits into both the batch size and an even share for all threads, but at least one check. After a known failure it is taken as failed, so that none of its checks is evaluated. |
| CheckQueue.StepKeeps | src/checkqueue.h:68-157 | Every step of every thread keeps the invariant: `nTodo` counts queued and held checks, `nIdle` and `nTotal` count threads, a failed check is remembered. |
| CheckQueue.VerdictsCorrect | src/checkqueue.h:68-126 | In every run with any number of workers, each verdict the master got is true exactly when all checks of that round pass. |
| CheckQueue.WaitReturns | src/checkqueue.h:90-99 | When `Wait` returns, no check is queued or held by any thread, the verdict is on exactly the checks of the round, and the queue is idle. |
| CheckQueue.IdleBetweenRounds | src/checkqueue.h:163-190 | Between rounds `IsIdle` holds, so the assertion of `CCheckQueueControl` does. |
| CheckQueue.NoLostWakeup | src/checkqueue.h:79-103 | While the master sleeps without a notification, there is work left and some worker holds a batch. |
| CheckQueue.AddWakes | src/checkqueue.h:145-157 | `Add` notifies every sleeping worker for several checks, exactly one if there is one for a single check, and nobody for none; no other thread changes. |
| CheckQueue.WorkersWoken | src/checkqueue.h:68-157 | In every run, while checks are queued, not all workers are asleep without a notification. |
| CheckQueue.NoDeadlock | src/checkqueue.h:68-126 | While the master waits for its result, some step of genuine progress is possible. |
| CheckQueue.StepMeasure | src/checkqueue.h:68-126 | Each genuine step of a round brings it closer to its end. |
| CheckQueue.WaitEnds | src/checkqueue.h:139-142 | No run of genuine steps in which `Wait` does not return is longer than a measure of its first state, so `Wait` ends. |
| CheckQueue.Queue.Section | src/checkqueue.h:76-119 | One critical section changes the shared state and notifies the master as the protocol step says. |
| CheckQueue.Queue.Swap | src/checkqueue.h:110-116 | The loop takes the batch from the end of the queue, in reverse order. |
| CheckQueue.Queue.AddChecks | src/checkqueue.h:145-157 | The loop appends the checks and counts them; all workers are notified for more than one check, one for one. |
| CheckQueue.EvaluateBatch | src/checkqueue.h:121-123 | The result is true exactly when it was and all checks pass. |
| IndexCodec.Encode | src/blockencodings.h:63-66 | The loop writes the differences, as unsigned 64-bit numbers. |
| IndexCodec.Decode | src/blockencodings.h:42-61 | The chunked loops read the indexes or fail. |
| IndexCodec.AddOffsets | src/blockencodings.h:55-61 | Adding the 16-bit offsets in place. |
| IndexCodec.EncodeDecode | src/blockencodings.h:38-68 | What is sent is read back exactly when it increases; otherwise it is rejected. |
| IndexCodec.DecodeEncode | src/blockencodings.h:55-61 | The decoder accepts a message with increasing indexes, and one that is the encoding of its indexes, exactly when the numbers and their count add up to at most 65536. |
| IndexCodec.WrappedOffset | src/blockencodings.h:60-60 | A message that is accepted with indexes going down. |
| CompactBlock.PosIncreases | src/blockencodings.cpp:60-65 | Prefilled transactions go to strictly increasing slots. |
| CompactBlock.GapCount | src/blockencodings.cpp:60-76 | As many slots remain as there are short ids. |
| CompactBlock.GapsAre | src/blockencodings.cpp:84-87 | The slots of the short ids are exactly the remaining ones, in increasing order. |
| CompactBlock.SlotsStored | src/blockencodings.cpp:66-87 | The 16-bit slot numbers stored are the right ones exactly when the block has at most 65536 transactions; otherwise the last slot is beyond them. |
| CompactBlock.AllTakenExactly | src/blockencodings.cpp:60-87 | A well-formed message takes every slot that a 16-bit offset reaches exactly when it has 65536 prefilled transactions. |
| CompactBlock.EndlessMessage | src/blockencodings.cpp:85-86 | An input: a well-formed message for which the test of the inner loop holds on every turn. |
| Sequences.DistinctSize | src/blockencodings.cpp:103-104 | Comparing sizes detects exactly the short id collisions. |
| CompactBlock.SkipFilled | src/blockencodings.cpp:85-86 | The inner loop ends in range at the next remaining slot, unless its test holds on every turn, which is so exactly when every slot in reach is taken. |
| CompactBlock.MapSlots | src/blockencodings.cpp:82-104 | For every well-formed layout: the call does not end exactly when every slot in reach is taken and there is a short id; it fails exactly on a collision or an overfull bucket; otherwise the table holds the stored number of the i-th remaining slot for the i-th short id. |
| CompactBlock.TableInRange | src/blockencodings.cpp:82-115 | For every well-formed message the slot numbers in the table are within the slots, even where they are not the right ones. |
| CompactBlock.CountOne | src/blockencodings.cpp:113-124 | The counter is the number of slots that hold a match, whatever slot numbers the table holds. |
| CompactBlock.MatchPool | src/blockencodings.cpp:106-132 | The loop gives the state of the defined scan, its counter counts the slots that hold a match, and it stops at the first transaction after which the counter reaches the number of short ids, if any. |
| CompactBlock.ReceivedRight | src/blockencodings.cpp:106-132 | Up to 65536 transactions, prefilled slots stay and a slot of a short id is filled exactly when one scanned transaction matches; the counter is the number of those filled. |
| CompactBlock.ReceivedWrong | src/blockencodings.cpp:87-115 | Beyond 65536, a match of the last short id lands in an earlier slot, and its own slot stays empty. |
| CompactBlock.ReceivedExactly | src/blockencodings.cpp:82-132 | The slots are right for every memory pool exactly when the message has at most 65536 transactions, if some transaction has the last short id. |
| CompactBlock.PrefilledReplaced | src/blockencodings.cpp:87-115 | An input: one prefilled transaction and 65536 short ids, where a pool match replaces the prefilled transaction. |
| CompactBlock.PartialBlock.PlacePrefilled | src/blockencodings.cpp:60-76 | The loop accepts exactly the well-formed messages and never leaves the range. |
| CompactBlock.PartialBlock.InitData | src/blockencodings.cpp:50-137 | For every message: when it is invalid, when the call does not end, when it fails, and the slots and counter when it succeeds; up to 65536 transactions every slot holds what it should. |
| CompactBlock.PartialBlock.IsTxAvailable | src/blockencodings.cpp:139-143 | Answers whether the index is not among the missing ones. |
| CompactBlock.PartialBlock.FillBlock | src/blockencodings.cpp:145-180 | Rejects too few and too many transactions; otherwise every slot holds its available or its missing transaction, and the block check decides. |
| CompactBlock.CompletesUniquely | src/blockencodings.cpp:150-158 | Available and missing transactions determine the block. |
| CompactBlock.Announce | src/blockencodings.cpp:20-30 | The announcement of a block. |
| CompactBlock.AvailableIsReal | src/blockencodings.cpp:109-126 | If matching pool transactions are the real ones, every filled slot holds the block's transaction. |
| CompactBlock.Reconstructs | src/blockencodings.cpp:145-160 | Completing with the requested transactions gives the block's transaction list. |
| CompactBlock.Request | src/main.cpp:8390-8394 | The request lists the empty slots in order, as 16-bit words. |
| CompactBlock.Respond | src/main.cpp:8028-8036 | The answer holds the block's transactions at the indexes, or nothing if one is out of bounds. |
| CompactBlock.Exchange | src/main.cpp:8390-8394 | Request, encoding, answer and filling: up to 65536 slots the missing transactions are the block's own, and the block check decides. |
| CompactBlock.Relay | src/blockencodings.cpp:20-180 | For every block of at most 65536 transactions the whole exchange, with the encoded request, gives exactly the sender's block, and succeeds exactly under the listed conditions; a larger block could only be accepted with an earlier transaction in its last place. |
| Limbs.AddAssign | src/arith_uint256.h:138-147 | The carry loop adds modulo the range, for every width. |
| Limbs.Increment | src/arith_uint256.h:175-182 | Adds one modulo the range. |
| Limbs.Complement | src/arith_uint256.h:72-78 | Gives the range minus one minus the value. |
| Limbs.SubAssign | src/arith_uint256.h:149-153 | Subtracts modulo the range, through negation. |
| Limbs.MulAssign32 | src/arith_uint256.cpp:89-99 | Multiplies by one limb modulo the range. |
| Limbs.MulRow | src/arith_uint256.cpp:105-113 | One row of the schoolbook product, also when the second factor is the cleared target itself. |
| Limbs.MulAssign | src/arith_uint256.cpp:101-115 | Multiplies modulo the range, for every width; multiplying a number by itself in place gives 0. |
| LimbShifts.OrIsPlus | src/arith_uint256.cpp:63-67 | Or-ing the carried bits into a limb is adding them. |
| LimbShifts.ShiftLeft | src/arith_uint256.cpp:55-70 | Multiplies by a power of two modulo the range, for every shift. |
| LimbShifts.ShiftRight | src/arith_uint256.cpp:72-87 | Divides by a power of two, for every shift. |
| LimbShifts.SquareVanishes | src/arith_uint256.cpp:101-115 | The square of a number is 0 modulo the range, and multiplying it by itself in place therefore right, exactly when its lower half is zero. |
| LimbShifts.SquareOfOneLost | src/arith_uint256.cpp:101-115 | An input: one times itself is not 0. |
| LimbDivision.CompareTo | src/arith_uint256.cpp:143-153 | Compares the values. |
| LimbDivision.Bits | src/arith_uint256.cpp:193-206 | Returns the number of bits of the value. |
| LimbDivision.SetBit | src/arith_uint256.cpp:134-134 | Sets a free quotient bit. |
| LimbDivision.DivAssign | src/arith_uint256.cpp:117-141 | Fails exactly for a zero divisor; otherwise gives the integer quotient, with the remainder left over. |
| CompactTarget.DecodeEncode | src/arith_uint256.cpp:240-281 | A compact number decodes to at most the original, less than one unit of its exponent below it. |
| CompactTarget.EncodeAgain | src/arith_uint256.cpp:240-281 | Encoding the decoded number gives the same compact number. |
| CompactTarget.OneCount | src/arith_uint256.cpp:262-262 | The byte count of a number is unique. |
| CompactTarget.CompactFits | src/arith_uint256.cpp:260-281 | The compact form of a 256-bit number is a 32-bit number. |
| CompactTarget.CompactAgain | src/arith_uint256.cpp:240-281 | The number that a compact form stands for, with the sign read from it, has the same compact form. |
| CompactTarget.OverflowExact | src/arith_uint256.cpp:254-257 | The overflow test is exact: mantissa times 256^(size-3) does not fit in 256 bits. |
| CompactTarget.SetCompact | src/arith_uint256.cpp:240-258 | The value modulo 2^256, the sign flag and the overflow flag. |
| CompactTarget.GetLow64 | src/arith_uint256.h:284-288 | The value modulo 2^64. |
| CompactTarget.GetCompact | src/arith_uint256.cpp:260-281 | The one compact form of the value, which is below 2^32; its asserts hold. |
| CompactTarget.Recompact | src/arith_uint256.cpp:240-281 | `GetCompact`, `SetCompact` and `GetCompact` again give the same compact number for every value and sign. |
| CompactTarget.TargetBelowTop | src/chain.cpp:123-127 | Adding one to a valid target does not wrap, so there is no division by zero. |
| CompactTarget.ProofIdentity | src/chain.cpp:123-127 | The formula that avoids 2^256 equals the quotient it stands for. |
| CompactTarget.GetBlockProof | src/chain.cpp:115-128 | Zero for an invalid target, otherwise 2^256 divided by the target plus one. |
| RollingBloom.CellMarked | src/bloom.cpp:269-276 | Writing a cell changes that two-bit cell and no other. |
| RollingBloom.CellPairWiped | src/bloom.cpp:257-265 | The masks empty exactly the cells of one generation. |
| RollingBloom.CellWiped | src/bloom.cpp:260-265 | The same for the loop over the table. |
| RollingBloom.CellMarkedUpTo | src/bloom.cpp:269-276 | The loop over the hash functions writes exactly the cells of the key. |
| RollingBloom.WrittenAfterTurn | src/bloom.cpp:251-266 | A turn makes every cell one generation older and empties exactly those of the generation that comes round again. |
| RollingBloom.WrittenAfterInsert | src/bloom.cpp:249-277 | An insert renews exactly the cells of its key. |
| RollingBloom.RunEntries | src/bloom.cpp:251-267 | How many of the inserts so far are in the current generation. |
| RollingBloom.CellsExactly | src/bloom.cpp:249-277 | After every run of inserts a cell is set exactly when it is a cell of a key of the current generation or of one of the two full ones before it. |
| RollingBloom.ContainsExactly | src/bloom.cpp:249-297 | After every run a key is answered with yes exactly when all its cells are cells of these keys. |
| RollingBloom.Forgets | src/bloom.cpp:249-297 | So a key inserted before that is forgotten, unless its cells are shared. |
| RollingBloom.NoFalseNegatives | src/bloom.cpp:249-297 | After every run of inserts, each key among the last 2 * `nEntriesPerGeneration` + `nEntriesThisGeneration` is contained. |
| RollingBloom.LastElementsContained | src/bloom.h:113-114 | In particular each of the last `nElements` keys. |
| RollingBloom.EmptyContainsNothing | src/bloom.cpp:305-313 | After a reset nothing is contained. |
| RollingBloom.RollingBloomFilter.Reset | src/bloom.cpp:305-313 | The state with no inserts. |
| RollingBloom.RollingBloomFilter.Wipe | src/bloom.cpp:260-265 | The loop with the masks wipes as defined. |
| RollingBloom.RollingBloomFilter.Insert | src/bloom.cpp:249-277 | The state is that of the run with the key appended. |
| RollingBloom.RollingBloomFilter.Contains | src/bloom.cpp:285-297 | Yes exactly when all cells of the key are cells of keys in the window; so for every key in the window. |
| BlockChain.LowestOneInverted | src/chain.cpp:64-65 | `n & (n - 1)` turns the lowest one bit off. |
| BlockChain.SkipExactly | src/chain.cpp:67-76 | From an even height a skip clears the lowest one bit; from an odd one the two lowest one bits of the height before, to the height after that. |
| BlockChain.SkipGoesBack | src/chain.cpp:67-76 | A skip leads to a smaller height. |
| BlockChain.BlockIndex.GetAncestor | src/chain.cpp:78-102 | Returns the block's ancestor at the height, or null out of range; the assertion on `pprev` holds and the walk ends. |
| BlockChain.BackIsPath | src/chain.cpp:78-102 | That ancestor is where the plain walk through `pprev` arrives. |
| BlockChain.BlockIndex.BuildSkip | src/chain.cpp:109-113 | Sets the right skip pointer and keeps every block of the tree valid. |
| BlockChain.BlockMap.AddToBlockIndex | src/main.cpp:5248-5271 | A known hash gives the block there is and changes nothing; otherwise the new block gets its predecessor by hash and its skip pointer, and every block stays valid. |
| BlockChain.PathOnChain | src/chain.h:630-633 | A block on the chain has all its ancestors on it. |
| BlockChain.Chain.SetTip | src/chain.cpp:13-23 | Although it stops early, the vector becomes the path of the new tip. |
| BlockChain.Chain.Next | src/chain.h:635-641 | A successor is returned exactly for a block of the chain below the tip; it is on the chain and has the block as its predecessor. |
| BlockChain.Chain.FindFork | src/chain.cpp:53-62 | Returns the highest block of the chain among the block and its ancestors. |
| BlockChain.Chain.LookBack | src/chain.cpp:37-45 | Both ways of looking up an ancestor agree. |
| BlockChain.Chain.GetLocator | src/chain.cpp:25-51 | The hashes of the ancestors at the locator's heights. |
| BlockChain.LocatorDescends | src/chain.cpp:32-48 | The heights go strictly down from the start to genesis. |
| BlockChain.LocatorDense | src/chain.cpp:37-47 | The first twelve heights are consecutive. |
| BlockChain.Chain.LocateFrom | src/chain.cpp:26-48 | The loop gives these hashes and ends with the defined last step. |
| BlockChain.LocatorLength | src/chain.cpp:26-48 | For a height above 10 a locator has n entries with 2^(n-12) + 9 < height <= 2^(n-11) + 9, and the step ends at 2^(n-11). |
| BlockChain.StepFits | src/chain.cpp:26-47 | The step stays within a signed 32-bit integer exactly for heights up to 2^30 + 9. |
| BlockChain.StepOverflows | src/chain.cpp:26-47 | An input: at height 2^30 + 10 the step reaches 2^31. |
| Radix.ConvertBack | src/base58.cpp:21-105 | Changing the base of a digit string and back, with leading zeros kept one for one, is the identity. |
| Base58.AlphabetIs | src/base58.cpp:18-19 | Digits and characters of the alphabet correspond. |
| Base58.SpacesAre | src/base58.cpp:24-24 | Spaces are the characters 9 to 13 and 32. |
| Base58.EncodeDecode | src/base58.cpp:21-105 | Every byte string is decoded from its text. |
| Base58.DecodeEncode | src/base58.cpp:21-105 | Every decoded text is, up to spaces around it, the text of the result. |
| Base58.AlphabetDecodes | src/base58.cpp:21-65 | Every text over the alphabet decodes. |
| Base58.EncodeBufferSuffices | src/base58.cpp:77-78 | The factor 138/100 always suffices. |
| Base58.DecodeBufferSuffices | src/base58.cpp:33-33 | The factor 733/1000 always suffices. |
| Base58.MulAdd | src/base58.cpp:81-91 | The carry loop, with its early stop, multiplies and adds, and ends without a carry. |
| Base58.EncodeBase58 | src/base58.cpp:67-105 | The encoder computes the text. |
| Base58.DecodeBase58 | src/base58.cpp:21-65 | The decoder computes the result, with spaces, foreign characters and trailing text handled as in the source. |
| Base58.DecodeBase58String | src/base58.cpp:112-115 | A string object is read up to its first terminator. |
| Base58.EncodeBase58Check | src/base58.cpp:117-124 | The text of the data followed by four bytes of its hash. |
| Base58.DecodeBase58Check | src/base58.cpp:126-141 | The data if the checksum is right. |
| Base58.UnguardedIs | src/base58.cpp:126-141 | Exactly data followed by its own checksum is accepted. |
| Base58.CheckedRoundTrip | src/base58.cpp:117-141 | What is encoded with a checksum is decoded again. |
| Base58.CheckedUnique | src/base58.cpp:117-141 | An accepted text over the alphabet is the one the encoder writes. |
| Amounts.CompressDecompress | src/compressor.cpp:133-185 | Over the naturals decompressing undoes compressing. |
| Amounts.DecompressCompress | src/compressor.cpp:133-185 | Over the naturals compressing undoes decompressing. |
| Amounts.CompressAmount | src/compressor.cpp:142-159 | The 64-bit code computes the compressed number modulo 2^64. |
| Amounts.DecompressAmount | src/compressor.cpp:161-185 | The 64-bit code computes the amount modulo 2^64. |
| Amounts.CompressBound | src/compressor.cpp:142-159 | The compressed number is at most nine times the amount, and below 2^64 for amounts ending in zero. |
| Amounts.SmallAmounts | src/compressor.cpp:142-185 | Nothing wraps and the round trip holds up to (2^64 - 1) / 9. |
| Amounts.RoundTripExactly | src/compressor.cpp:142-185 | For every 64-bit amount the round trip holds exactly when the amount ends in zero or nine times it, plus its last digit, minus nine, is below 2^64, which is when the compressed number does not wrap. |
| Amounts.LargestAmountLost | src/amount.h:31-31 | The largest amount of money does not survive the round trip. |

## Left out

- The DAO maps of the state view (proposals, payment requests, votes, consultations, parameters): their null and dirty rules are in files outside this model.
- `CStateViewCache::AccessCoins`, `HaveCoinsInCache`, `GetValueIn` and the best block hash: thin readers of the same state.
- The bottom view's storage: it is a map; LevelDB is not part of this model.
- The usage formula assumes exact vector capacities and a 64-bit allocator, since capacity is not a function of the contents.
- The curve arithmetic of public keys in compressed scripts: a parameter, with the law that a valid key is found again from one coordinate and a parity.
- VarInts.ReadVarInt: does not model overflow of the target type, which only streams not written by the encoder reach.
- `CAddrMan::Select_`, `GetChance` and `Find`: randomized selection with floating point, and a plain lookup.
- The mixing of addresses, groups and the key into bucket numbers: arbitrary functions reduced to the table ranges.
- AddrLoad.Unserialize: works on values and a stream already split into fields, so bytes, streams cut inside a field and update in place are not captured.
- `CAddrMan::Clear` on a manager in use: reading is modelled into a fresh manager, since `Clear` leaves `mapInfo` and `mapAddr` alone.
- `fQuit`, thread interruption and several masters at once in the check queue: the model has one master and no shutdown.
- The byte form of compact block messages, `vchBlockSig` and the retrieval of blocks by hash; a pool entry is a transaction with its hash.
- Probabilities: how likely short id collisions, overfull buckets and false positives are.
- `base_uint` in hexadecimal and floating point, bitwise operators and decrement: easy members.
- The sizes of the bloom filter come from logarithms and are parameters; the plain `CBloomFilter` is not modelled.
- `CBlockIndex::GetBlockTrust`, validity flags, chain work, the best header and disk positions.
- BlockChain.BlockMap.AddToBlockIndex: requires a hash other than that of the predecessor, since a header that hashes to its own `hashPrevBlock` would become its own predecessor.
- Version bytes and the address classes on top of Base58Check.
