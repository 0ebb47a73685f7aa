# Verification models of the emulator's stateful cores

The emulator interprets RV64 instructions; the instructions themselves are shallow, and the
difficulty is in the stateful helpers around them. This project models those helpers in Dafny, in
the form they have in the source (classes with fields that methods update, arrays with loops over
them, value functions for what is only computed), and proves what they are for.

* **Branch history and TAGE tables** (`History`, `GlobalHistory`, `ThreadHistory`, `Speculation`,
  `TageParams`, `TageTables`, `TageBase`, `TageTheorems`, `TageHash`, `TageLaws`). The circular history buffer with its
  copy on rollover, the incrementally folded registers, the checkpoints and the squash refine one
  unbounded sequence of outcomes, over runs of any length with rollovers and rollbacks. On top of
  it stand prediction by longest match, allocation, the saturating counters and the ageing of the
  useful bits. `TageHash` gives every bit of an index and a tag by the bits of the address, the history and
  the path; `TageLaws` says by integer steps who predicts, which counters move and which entries are
  replaced. All of it is parametric in the predictor's construction parameters.
* **Set-associative LRU cache** (`LruList`, `LruStack`, `NwayCache`, `WorkingSet`). The doubly linked list inside
  one array of nodes refines a bounded recency sequence, from which the stack theorem and inclusion
  follow for whole traces. `WorkingSet` says by division which lines share a set, and which working sets fit.
* **Address translation** (`Sv39`, `Tlb`, `Stores`, `Core`, `Runs`, `FetchReuse`, `Hart`, `PageWalk`). The
  three-level walk of section 4.4 of the RISC-V Privileged Architecture (version 20211203), the translation buffer
  in front of it and the reuse of the last fetch page agree, although the walk writes accessed and
  dirty bits into the tables it reads and programs store to them. `Core` is the hart as a value, with
  one function for each operation; `Stores` says which words a store changes and which stores a walk
  can tell; `Runs` has the theorems about whole runs of the interpreter loop (`RunFetchesSoundly`,
  `RunSinceFlush`, `RunValid`, `RunPrivilege`). The class `Hart` takes the same steps in place, so its
  `Run` goes through a run of the value model. `PageWalk` states the walk on raw words, by division.
* **Traps** (`Privilege`, `Traps`, `Core`, `Hart`, `TrapLaws`). Trap entry, sret, mret, interrupt selection and the
  status writes are a privilege state machine; entry and return are inverse under arbitrary balanced
  nesting. `TrapLaws` gives the registers bit by bit and says which interrupts are held off in a handler.
* **Device tree writer** (`FdtFormat`, `FdtEncoding`, `FdtWriter`, `FdtBytes`). The specification is a decoder for
  sections 5.2 to 5.5 of the Devicetree Specification; every tree that is written decodes to itself. `FdtBytes` spells
  out the bytes themselves.
* **Checkpoints** (`Checkpoint`). Only non-zero pages are written; loading gives back all of memory
  exactly when the memory loaded into holds nothing in the pages left out.
* **Bit-level cores** (`Bits`, `Gf2`, `Crc`, `BitVec`). The bitwise CRC loop is long division by the
  Castagnoli polynomial (CRC32C, section 12.1 of RFC 3720) up to bit reflection, and the multiword
  shift register is the outcome history.

Machine words whose width is a parameter in the source are natural numbers with recursive bit
operations (`Bits`), with truncation written out where the source truncates. A method that changes
state is specified by a function of the old state, or by the sequence, history or tree that its
state stands for, and the main results are lemmas about these.

Some results are about where the code does *not* have an expected property, each with the exact
condition under which it does:

* a checkpoint in the history buffer is good for any outcomes recorded after it exactly while they
  are fewer than its lifetime (`CheckpointSurvives`, `CheckpointExpires`); a squash within the lifetime
  is exact (`Squash`), and one at its end can leave a wrong folded register (`SquashTooLate`);
* sret and mret do not reset the saved fetch page, so a return that turns paging on, or goes from
  supervisor to user, can be followed by a fetch that full translation would send elsewhere or refuse.
  The saved page is sound for all page tables exactly when nothing is saved, or the return goes to
  another 4 KiB page, or both levels have the same view of memory (`ReturnSoundExactly`). The failing
  input is a return to user on a page without the user bit, at any pc (`SretOntoSupervisorPage`);
* sfence.vma empties the translation buffer, after which the buffer is right for any tables
  (`Hart.Sfence`), and keeps the saved fetch page. That page is sound for the next pc and all tables
  exactly when nothing is saved or the next pc is on another page (`FenceSoundExactly`). The failing
  input is a program that stores to its page's own leaf through a writable mapping of the tables and
  then executes a fence (`FenceAfterRemap`);
* a store leaves the translation buffer as it is. The buffer stays right for all values stored in an
  aligned word exactly when no valid entry's walk reads that word (`StoreKeepsExactly`), and since the
  last flush it is right as long as stores spare these words or only turn on accessed and dirty bits in
  them (`RunSinceFlush`);
* a freshly allocated entry is found by the next prediction exactly when its table is enabled
  (`AllocationIsSeen`; `AllocationsAreSeen` for any number of allocations), and an update that wants an
  entry gets one exactly when all entries above the hit are useful or one not below the random
  candidate is not (`AllocatesExactlyWhen`).

The comment at the ageing loop (tage_base.cc:438-441) speaks of resetting the least significant bit;
the code shifts the counter right, and the model follows the code.

## Model

| member | source | states |
|---|---|---|
| History.FoldHasFoldBits | tage_base.hh:161-188 | Bit k of a folded window is the parity of the taken outcomes whose number is k modulo the register width |
| History.FoldBitShifts | tage_base.hh:181-187 | One more branch rotates the fold of the window by one bit and adds the new outcome at bit 0 |
| History.FoldStepIsFold | tage_base.hh:181-187 | Incremental folding equals folding the whole window, although the step touches only the newest and the departing outcome; for every window length and register width |
| History.FoldBound | tage_base.hh:181-187 | A fold fits the register that holds it, so the 32-bit word never overflows |
| History.FoldOfNothing | tage_base.hh:169-179 | A zeroed register is the fold of the empty history |
| History.PathValueBit | tage_base.cc:535-540 | Bit i of the path history is the i-th most recent path bit, and 0 from pathHistBits on |
| GlobalHistory.SlotLater | tage_base.cc:284-298 | The write position d outcomes later: d lower, or wrapped by the period histBufferSize - maxHist |
| GlobalHistory.RecordedWindow | tage_base.cc:284-298 | One updateGHist keeps the window: from the new position the buffer holds the newest maxHist + 1 outcomes, also across the rollover copy |
| GlobalHistory.RecordKeeps | tage_base.cc:284-298 | Recording an outcome leaves the window of an older history readable while fewer outcomes than its lifetime were recorded on top |
| GlobalHistory.RewriteKeeps | tage_base.cc:578-580 | Correcting the outcome at the head of one checkpoint leaves the windows of older histories alone up to their lifetime |
| GlobalHistory.RewriteNewest | tage_base.cc:578-580 | Correcting the newest outcome gives the window of the corrected history |
| GlobalHistory.CheckpointSurvives | tage_base.cc:284-298 | A checkpoint survives every sequence of later outcomes shorter than its lifetime, which is at least histBufferSize - 2 * maxHist |
| GlobalHistory.CheckpointExpires | tage_base.cc:284-298 | The lifetime is exact: whatever the buffer holds, some outcomes as many as the lifetime spoil the window, at its oldest outcome |
| GlobalHistory.SquashTooLate | tage_base.cc:567-589 | A squash at the end of the lifetime can go wrong: some outcomes as many as the lifetime make the step on the restored register differ from the fold of a window of maxHist outcomes, for every register width |
| ThreadHistories.FoldedHistory.Update | tage_base.hh:181-187 | The in-place step on the register: from the fold of the past to the fold of the extended history |
| ThreadHistories.ThreadHistory.constructor | tage_base.cc:97-122 | The zeroed buffer and registers stand for the empty history |
| ThreadHistories.ThreadHistory.UpdateGHist | tage_base.cc:284-298 | The loop on the array, in bounds, writes the new outcome and, at position 0, first copies the newest maxHist outcomes to the end; every other cell is unchanged; gHist stays at ptGhist |
| ThreadHistories.ThreadHistory.UpdateHistories | tage_base.cc:526-564 | Appends the outcome and the path bit to the history; with speculative updates the BranchInfo becomes its checkpoint, and the older branches that can still be squashed to are those within their lifetime; with the other kind of update nothing changes |
| ThreadHistories.ThreadHistory.StepRegisters | tage_base.cc:547-558 | All folded registers become folds of the extended history and, when speculative, the BranchInfo saves the folds of the history before |
| ThreadHistories.ThreadHistory.RestoreRegisters | tage_base.cc:581-588 | Restoring the saved registers and stepping them with the corrected outcome gives the folds of the corrected history |
| ThreadHistories.ThreadHistory.Squash | tage_base.cc:567-589 | Exact rollback to any branch m with fewer newer outcomes than its lifetime at all times since: all histories, pointers and folded registers are those of a run that recorded m with the corrected outcome and nothing after |
| ThreadHistories.ThreadHistory.BtbUpdate | tage_base.cc:167-182 | The newest branch becomes not taken in all histories and folded registers, with its path bit kept; nothing changes without speculative updates |
| Speculation.CheckpointKept | tage_base.cc:567-589 | A checkpoint still fits after newer outcomes were replaced or dropped |
| Speculation.DoFetch | tage_base.cc:526-564 | Fetching a branch appends it to the architectural history and adds its checkpoint to those in flight |
| Speculation.DoMispredict | tage_base.cc:567-589 | Squashing to any branch in flight cuts the architectural history there and keeps the checkpoints of the older branches |
| Speculation.DoBtbMiss | tage_base.cc:167-182 | A BTB miss corrects the newest architectural outcome and keeps all checkpoints |
| Speculation.Run | tage_base.cc:526-589 | Over every sequence of fetches, mispredictions of any branch in flight, BTB misses and retirements that fetches no branch beyond the lifetime of a checkpoint in flight, histories and folded registers are those of the architectural outcomes |
| Speculation.FewInFlight | tage_base.cc:284-298 | Such a sequence may have histBufferSize - 2 * maxHist branches in flight wherever the buffer stands |
| TagePredictor.TageBase.constructor | tage_base.cc:75-135 | init() leaves tables of the sizes given by the parameters: tagged entries and choice counter zero, bimodal predictions not taken, hysteresis bits set |
| TagePredictor.TageBase.CalculateIndicesAndTags | tage_base.cc:300-308 | Indices and tags in every table are functions of pc and the architectural history alone, those whose bits TageHashes gives, and indices are within their tables |
| TageHashes.TagBit | tage_base.cc:218-225 | Bit k of a tag is bit k of the instruction number, xor bit k of the history folded to the tag's width, xor bit k - 1 of the history folded to one bit less |
| TageHashes.IndexBit | tage_base.cc:203-215 | Bit k of an index is bit k of the instruction number, xor its bit k + log - i + 1 below 32, xor bit k of the folded history, xor bit k of the path hash |
| TageHashes.PathHashBit | tage_base.cc:190-201 | Bit k of the path hash is the parity of two path bits, the one that one rotation by the table number brings there and, from the older word, the one that two rotations do, while the path bits fit two words of the index's width |
| TageHashes.TurnedByDivision | tage_base.cc:195-199 | The rotation step by multiplication and division, for words of any size |
| TageHashes.BimodalByDivision | tage_base.cc:184-186 | The bimodal entry is the instruction number modulo the size of the table |
| TagePredictor.TageBase.FindMatch | tage_base.cc:327-343 | The downward scan returns the highest enabled table not above the start whose selected entry carries the tag, or 0 |
| TagePredictor.TageBase.TagePredict | tage_base.cc:315-386 | For a conditional branch the BranchInfo gets the longest match, the next longest match as alternate, both predictions and the choice between them, and the prediction is returned; other branches are predicted taken and leave the look-up alone. TageLaws says which prediction that is |
| TagePredictor.TageBase.DoBaseUpdate | tage_base.cc:266-280 | The two-bit bimodal counter, whose low bit is shared between neighbours, saturates up or down as in the specification on values |
| TagePredictor.TageBase.AnyUseless | tage_base.cc:394-400 | The minimum scan finds whether some table above the hit has a useless entry for the branch |
| TagePredictor.TageBase.AllocateEntries | tage_base.cc:393-429 | The allocation loop on the tables has the effect of the recursive allocation on values, with the forced entry when all are useful |
| TagePredictor.TageBase.HandleUReset | tage_base.cc:437-452 | When the update counter is a multiple of 2^logUResetPeriod every useful counter is halved, otherwise nothing changes |
| TagePredictor.TageBase.HandleAllocAndUReset | tage_base.cc:392-434 | Allocation, then one tick of the update counter with the ageing that is due |
| TagePredictor.TageBase.HandleTageUpdate | tage_base.cc:495-524 | The in-place training of provider, alternate, bimodal and useful counters is the training function on the tables |
| TagePredictor.TageBase.TrainChoice | tage_base.cc:454-482 | Whether an allocation is wanted, and the training of the choice between longest match and alternate for weak entries |
| TagePredictor.TageBase.DoCondBranchUpdate | tage_base.cc:454-491 | The whole update in place is the update function on the tables |
| TagePredictor.AgeInPlace | tage_base.cc:443-452 | Halves every useful counter of a table in place and changes nothing else |
| TageTables.FirstCandidate | tage_base.cc:402-412 | The random candidate is above the hit, at most three above it and never beyond the last table; TageLaws.CandidateExactly says which |
| TageTables.HysteresisInRange | tage_base.cc:266-280 | The shared hysteresis index is within its table |
| TageTheorems.AllocatesExactlyWhen | tage_base.cc:392-429 | An update that wants to allocate does so if and only if all entries above the hit are useful or one not below the candidate is useless |
| TageTheorems.AllocateForOne | tage_base.cc:392-429 | With maxNumAlloc 1 exactly one entry is replaced: the first useless one not below the candidate, or the candidate itself when all are useful |
| TageTheorems.UpdateReplaces | tage_base.cc:454-524 | With maxNumAlloc 1, over a whole update every tag survives except that of the allocated entry, which is weak in the direction of the outcome |
| TageTheorems.AllocationIsSeen | tage_base.cc:300-434 | With maxNumAlloc 1, predicting the same branch again with unchanged histories hits the allocated bank if and only if it is enabled; then the old hit is the alternate, the longest match predicts the outcome, and the entry is recognised as newly allocated |
| TageTheorems.RetryFindsAllocation | tage_base.cc:315-524 | The same for predict, update, predict with the histories of one branch, without assuming that indices agree |
| TageTheorems.AllocateMany | tage_base.cc:414-429 | For any number of allocations exactly the first useless entries from the candidate up are replaced, and every other entry stays |
| TageTheorems.UpdateReplacesAll | tage_base.cc:454-524 | Over a whole update every tag survives except those of the allocated entries, which are weak in the direction of the outcome, for any maxNumAlloc |
| TageTheorems.AllocationsAreSeen | tage_base.cc:300-434 | For any maxNumAlloc the next prediction hits the highest enabled table in which an entry was allocated, with the next such table or the old hit as alternate; without an enabled one it hits the old hit again, with the old alternate |
| TageTheorems.PredictionFollowsHistory | tage_base.cc:204-225 | A prediction is determined by tables, pc and architectural history, so a squash gives back the predictions too |
| TageTheorems.UpdateInRange | tage_base.cc:228-255 | Every update keeps signed counters in two's complement range, useful counters below 2^tagTableUBits and the choice counter in its range |
| TageTheorems.RunInRange | tage_base.cc:454-524 | Over every run of updates all counters stay in range |
| TageTheorems.HitStep | tage_base.cc:454-524 | Whatever else an update does (allocation, ageing, training of the alternate), the counter of the hit entry takes one saturating step towards the outcome, by one as in TageLaws.CounterStep |
| TageTheorems.ProviderLearns | tage_base.cc:228-239 | After 2^(tagTableCounterBits - 1) updates that hit the same entry with the same outcome the entry predicts it, wherever its counter started |
| TageTheorems.BimodalLearns | tage_base.cc:266-280 | Two updates with the same outcome make a bimodal entry predict it, and neighbours that share its hysteresis bit keep their predictions |
| TageTheorems.ResetsPerPeriod | tage_base.cc:431-448 | Any k periods of consecutive updates contain exactly k resets, wherever they start |
| TageTheorems.UncreditedStep | tage_base.cc:454-524 | An update that does not credit an entry does not raise its useful counter, and halves it when a reset is due |
| TageTheorems.UsefulBitsAgeOut | tage_base.cc:431-452 | An entry credited by none of 2^(logUResetPeriod + 1) consecutive updates has useful counter 0 at their end; they contain exactly two resets |
| TageLaws.CounterStep | tage_base.cc:228-239 | A signed counter moves by one towards the outcome and stops at the two ends of its range |
| TageLaws.StrongHitPredicts | tage_base.cc:346-380 | A longest match whose counter is not one of the two in the middle predicts by its own sign; without a match the bimodal entry predicts |
| TageLaws.WinnerPredicts | tage_base.cc:362-482 | Who predicts for a weak longest match: after k contests won by the alternate, the alternate if and only if the choice counter started at -k or above; after k won by the weak entry, the entry itself if and only if it started below k; so 2^(useAltOnNaBits - 1) contests decide from any start |
| TageLaws.NoContest | tage_base.cc:464-481 | The choice counter moves in no other update |
| TageLaws.UsefulStep | tage_base.cc:389-524 | Useful counters exactly: after any ageing that is due, one up to the maximum for an entry that was right against a wrong alternate, one down for one that was wrong against a right alternate, cleared for the entry that is forced out, unchanged for all others |
| TageLaws.UsefulIsKept | tage_base.cc:392-429 | An entry with a useful counter above 0 keeps its tag in every update that does not force it out |
| TageLaws.CreditProtects | tage_base.cc:389-524 | Once credited, an entry keeps its tag and a useful counter above 0 over all updates that do not age the counters, do not find it wrong against a right alternate and find a useless entry when they allocate |
| TageLaws.AllocatesIff | tage_base.cc:392-482 | An update allocates if and only if the prediction was wrong, there is a longer table, the longest match was not a weak entry that was right by itself, and a useless entry is there from the candidate up or none at all above the hit |
| TageLaws.AllocatedExactly | tage_base.cc:414-429 | The entries replaced are the lowest maxNumAlloc useless ones from the candidate up |
| TageLaws.CandidateExactly | tage_base.cc:402-412 | The candidate is one, two or three tables above the hit, by the two low bits of the random number and the room above |
| TageLaws.AlternateStep | tage_base.cc:495-516 | The alternate, or without one the bimodal entry, takes a step exactly while the entry that hit has useful counter 0 after any ageing |
| TageLaws.BimodalOnly | tage_base.cc:521-523 | Without a match the bimodal entry takes the step |
| TageLaws.CountersElsewhere | tage_base.cc:495-524 | Counters of all other entries that are not replaced stay |
| TageLaws.BimodalStep | tage_base.cc:266-280 | A bimodal update is one step of a counter from 0 to 3; other entries keep their predictions, and their hysteresis unless their numbers agree up to the last logRatioBiModalHystEntries bits |
| LruList.PushFrontLinks | nway_cache.cc:165-178 | Pushing a node in front keeps the list linked both ways and puts its address first |
| LruList.UnlinkLinks | nway_cache.cc:193-198 | Unlinking an inner or last node keeps the rest linked both ways, in order and without it |
| LruList.MovedToFront | nway_cache.cc:182-203 | Moving a node to the front keeps both lists disjoint, distinct and covering, and rotates the addresses |
| LruList.TouchByPlace | nway_cache.cc:147-207 | What one access does to the recency sequence, by the place at which the address is found or its absence |
| LruList.Way.constructor | nway_cache.cc:134-145 | All nodes start in the free list, and the recency list is empty |
| LruList.Way.Search | nway_cache.cc:148-161 | The walk ends at the node that holds the address, or behind the last one when none does |
| LruList.Way.InsertFree | nway_cache.cc:164-178 | A miss with free nodes puts the address in front of the old sequence |
| LruList.Way.Evict | nway_cache.cc:179-189 | A miss without free nodes replaces the least recently used address and puts the new one first |
| LruList.Way.MoveToFront | nway_cache.cc:192-204 | A hit behind the head moves its address to the front and keeps the order of the others |
| LruList.Way.Access | nway_cache.cc:147-207 | Returns membership, reports a most-recently-used hit exactly for the head, leaves the sequence with the address first, the others in order, cut to the number of nodes, and keeps the lists well linked |
| LruStack.LinesBelow32Bits | nway_cache.cc:118-120 | Below 2^32 two addresses share a line exactly when they agree above the line offset |
| LruStack.HeldIsPrefix | nway_cache.cc:118-131 | A set holds the n most recently used of its lines, for every n |
| LruStack.RecentLead | nway_cache.cc:118-131 | The lines of a set accessed since any point of the trace are exactly the leading ones of its recency order |
| LruStack.StackTheorem | nway_cache.cc:118-131 | An access hits if and only if the line was accessed before and fewer than n distinct other lines of its set were accessed since, for every trace |
| LruStack.MoreWaysHoldMore | nway_cache.cc:147-207 | With as many sets and more ways a set holds a superset of lines, as a prefix |
| LruStack.MoreWaysHitMore | nway_cache.cc:118-131 | No trace has fewer hits when ways are added |
| LruStack.MruHitsAreFixed | nway_cache.cc:127-130 | The number of most-recently-used hits does not depend on the associativity |
| NwayCaches.NwayCache.constructor | nway_cache.cc:110-116 | An empty cache with 2^lg2_lines separate sets |
| NwayCaches.NwayCache.Access | nway_cache.cc:118-131 | Hits exactly as the trace says; set contents, access, hit, most-recently-used and per-set counts are those of the extended trace |
| WorkingSets.SharedSet | nway_cache.cc:118-124 | Two addresses below 2^32 compete for a set exactly when their line numbers agree modulo 2^lg2_lines |
| WorkingSets.Wraps | nway_cache.cc:118-124 | Addresses that agree modulo 2^32 are the same to the cache |
| WorkingSets.WorkingSetFits | nway_cache.cc:118-131 | If all accesses are to nways * 2^lg2_lines consecutive lines, from any line on, an access hits if and only if its line was accessed before |
| WorkingSets.RoundTripMisses | nway_cache.cc:118-207 | nways + 1 lines that are 2^lg2_lines lines apart, accessed round and round, never hit |
| Sv39.UnpackInjective | interpret.hh:473-492 | The bit-field view of a page-table word loses nothing: different 64-bit words are different entries |
| PageWalks.EntryFields | interpret.hh:473-492 | Where the valid, r, w, x, u, a, d and n bits and the page number are in the word, by division |
| Sv39.SetOneBit | interpret.cc:393-408 | Setting the field a or d sets bit 6 or 7 of the word and no other field changes |
| Sv39.LeafAddressBit | interpret.cc:416-417 | Bits below the page size come from the virtual address, those above from the leaf |
| Sv39.ADIsInvisible | interpret.cc:304-357 | Memories that differ only in accessed and dirty bits, in any words, even in shared or self-mapped tables, give every address the same walk with the same leaf |
| Sv39.WalkFootprint | interpret.cc:304-357 | A walk depends on at most three words, those it reads, and on these up to accessed and dirty bits |
| Sv39.ReadIsNeeded | interpret.cc:304-357 | No smaller set of words will do: clearing any word that a walk reads leaves it without a leaf |
| Sv39.SameLeafSameEffect | interpret.cc:361-389 | Leaves that differ only in these bits give the same permissions and the same page |
| Sv39.WalkOfPage | interpret.cc:304-357 | The walk depends on the 4 KiB page number alone, for all page sizes |
| Sv39.AddressOfPage | interpret.cc:416-417 | Addresses on one 4 KiB page go to one physical page at their own offsets, also in larger pages |
| Tlb.Packed | interpret.cc:237-244 | Page base and page size packed into one word can be taken apart again |
| Tlb.MappedStays | interpret.cc:392-408 | Turning on accessed and dirty bits in the words that a walk reads keeps the walk and the mapping, whatever happens to other words |
| Tlb.HitIsWalk | interpret.cc:246-266 | A valid entry that was filled by the walk gives every address on its page the address the walk forms, for 1 GiB, 2 MiB, 64 KiB and 4 KiB leaves |
| Tlb.InsertedIsBacked | interpret.cc:432-432 | An entry made from the walk of any address on a page is what the walk gives for the whole page |
| Tlb.LeadsAlongPage | interpret.cc:796-798 | The saved physical page is good for every pc on the same virtual page |
| Tlb.LeadsToItself | interpret.cc:796-806 | Where a fetch succeeded, the shortcut for the same pc forms the same address |
| Tlb.FetchIsTranslation | interpret.cc:357-389 | Where a fetch from an address is sound, full translation gives this address or is refused by a permission check, and it gives this address when the fetch was granted by a walk |
| Tlb.FetchesAlongPage | interpret.cc:796-798 | A sound saved page is sound for every pc on the same virtual page |
| Tlb.SameWalkFetches | interpret.cc:357-408 | Changes to the accessed and dirty bits of the leaf, in either direction, leave a sound saved page sound |
| Stores.StoredWord | interpret.cc:196-215 | A store of up to eight bytes at any address, aligned or not, changes the one or two words it overlaps and no others |
| Stores.SparedEntry | interpret.cc:196-215 | A store that overlaps none of the words a walk reads, or turns on only accessed and dirty bits in them, leaves the walk marked at most |
| Stores.SparedWalk | interpret.cc:196-215 | The same for the walk of the running page, where accessed and dirty bits may also be turned off |
| Stores.UnreadIsSpared | interpret.cc:196-215 | An aligned store to a word that a walk does not read, of any value, is such a store |
| Cores.TranslateIsWalk | interpret.cc:271-434 | Where the entry consulted is fresh, a successful translation, by the buffer or by a walk, is the address the walk forms and the leaf is marked accessed, after a store dirty; without a usable entry the outcome is that of the walk and the permission checks |
| Cores.TranslateKeeps | interpret.cc:392-432 | A translation changes accessed and dirty bits and the buffer alone, and every entry that agreed with the walk still does |
| Cores.LoadTwice | interpret.cc:1500-1541 | A doubleword load reserved, which translates its address twice for a load, has the effect and the outcome of one translation |
| Cores.FetchSteady | interpret.cc:792-813 | One fetch, from the saved page or translated: its address is the one to which the walk of pc leads and the level may use the leaf; a fault enters the trap and drops the saved page |
| Cores.StoreSteady | interpret.cc:1743-1777 | A store leaves the saved page sound for the next pc if it changes the words that the walk of pc reads at most in A and D, or execution leaves the page |
| Cores.TrapSteady | interpret.cc:2472-2535 | Trap entry drops the saved page, empties the buffer on a change of level and keeps UXL and SXL |
| Cores.ReturnSteady | interpret.cc:2258-2307 | A return to a level with the same view of memory, or to another page, leaves the saved page sound |
| Cores.ExecuteSteady | interpret.cc:816-2310 | Every instruction that respects the running page keeps the invariant: jumps, loads, stores and atomic operations, fences, CSR writes, returns and exceptions |
| Cores.NextSteady | interpret.cc:722-2535 | Every iteration of the interpreter keeps the invariant, with its interrupt, fetch and instruction |
| Cores.FenceCoherent | interpret.cc:2245-2249 | A fence leaves nothing stale in the buffer whatever was written to the tables |
| Cores.WriteKeeps | interpret.cc:1743-1777 | A store that spares the words that the walks of the valid entries' pages read, up to turning on A and D, keeps every agreeing entry in agreement |
| Cores.StoreKeepsExactly | interpret.cc:1743-1777 | Exact condition for stores: every value may be stored in an aligned word with the buffer staying right if and only if no valid entry's walk reads that word |
| Cores.NextKeeps | interpret.cc:722-2535 | Every iteration of the interpreter whose store, if any, spares the words that the valid entries depend on leaves each entry that agreed with the walk in agreement, or drops it |
| PageWalks.SmallPage | interpret.cc:304-432 | 4 KiB pages by division: if the words at satp.ppn * 4096 + va / 2^30 % 512 * 8, p1 * 4096 + va / 2^21 % 512 * 8 and p0 * 4096 + va / 4096 % 512 * 8 are a pointer to p1, a pointer to p0 and a leaf, an access is granted exactly as the leaf's r, w, x and u bits say, gives leaf.ppn * 4096 + va % 4096, and marks that word alone; through a buffer entry it gives the same address |
| PageWalks.MediumPage | interpret.cc:304-432 | The same for 64 KiB pages, whose page number ends in 8 and is taken down to a multiple of 16 |
| PageWalks.LargePage | interpret.cc:304-432 | The same for 2 MiB leaves at the second level |
| PageWalks.HugePage | interpret.cc:304-432 | The same for 1 GiB leaves at the first level |
| PageWalks.MissingEntry | interpret.cc:304-343 | An entry that is not valid ends the access with the fault code 2, 1 or 0 of its level, and nothing changes |
| PageWalks.Untranslated | interpret.cc:282-291 | At machine and hypervisor level and with mode 0 an address is its own translation, and nothing changes |
| PageWalks.BufferReach | interpret.cc:231-266 | A walk leaves its page in the buffer and evicts no page whose number differs modulo 32 |
| Runs.RunFetchesSoundly | interpret.cc:722-2535 | Fetch reuse is sound over every run in which no fetch consults a stale entry, stores change the words that the walk of the running page reads at most in A and D, and returns to a level with another view go to another page: every fetch is at the address that full translation of its pc forms, through a leaf the level may use |
| Runs.RunCoherent | interpret.cc:722-2535 | From any state in which the buffer is right, as long as stores spare the words that the walks of the valid entries read, up to turning on A and D: every valid entry is what the walk gives under the current satp and privilege, and every access in every state is translated as the walk says |
| Runs.Flushes | interpret.cc:436-455 | A fence, a write to satp that is taken and every change of level, by whatever instruction, fault or interrupt, leave no valid entry |
| Runs.RunSinceFlush | interpret.cc:722-2535 | Whatever was written to the tables before, the buffer is right in every state since the last flush if since then stores spared the words that the walks of the valid entries read |
| Runs.RunValid | interpret.cc:722-2535 | Both together from any valid state: buffer and saved page agree with the walk in every state, and every fetch is sound, so no fetch consults a stale entry |
| Runs.RunSinceDrop | interpret.cc:722-2535 | The same from any state in which both caches are empty, as after a write to satp, whatever was written to the tables before |
| Runs.PrivilegeRises | interpret.cc:722-2535 | If an iteration of the interpreter raises privilege it took a trap: it continues at mtvec in machine mode or stvec in supervisor mode, with both caches empty |
| Runs.RunPrivilege | interpret.cc:722-2535 | If privilege is higher at the end of a stretch of a run than at its start, some iteration in between took such a trap |
| FetchReuse.ReturnSoundExactly | interpret.cc:796-798 | Exact condition for all returns: the saved page is sound afterwards, for all tables for which it was sound before, if and only if nothing is saved, the return goes to another page, or both levels have the same view of memory |
| FetchReuse.SretOntoSupervisorPage | interpret.cc:2258-2281 | At every pc: sret from supervisor to user on a page without the user bit is followed by a fetch that succeeds, although full translation refuses it |
| FetchReuse.FenceSoundExactly | interpret.cc:2245-2249 | Exact condition for fences: the saved page is sound for the next pc, for all tables that may have been written, if and only if nothing is saved or that pc is on another page |
| FetchReuse.FenceAfterRemap | interpret.cc:2245-2249 | At every pc but the last two of a page, by two iterations of the interpreter: after an executed store that maps the running page elsewhere, through a writable mapping of the tables, and an executed fence, no entry is stale and the next fetch still uses the old page |
| Harts.Hart.constructor | interpret.hh:97-147 | A hart at machine level with paging off and empty caches satisfies the invariant |
| Harts.Hart.ClearTlb | interpret.cc:231-235 | No entry is valid, and nothing else in them changes |
| Harts.Hart.InsertTlb | interpret.cc:237-244 | The slot of the page holds the packed base and size, the dirty flag and the page number; all other slots stay |
| Harts.Hart.LookupTlb | interpret.cc:246-266 | Hits exactly on a valid entry for the page, and returns its dirty flag and address; a fresh entry gives the address the walk forms and a dirty flag that the leaf in memory backs |
| Harts.Hart.Translate | interpret.cc:271-434 | In place, the translation of the value model; a coherent hart stays coherent, a successful translation is the address the walk forms with the leaf marked in memory, memory changes in these marks only, and without a usable entry the outcome is that of the walk and the permission checks |
| Harts.Hart.MarkLeaf | interpret.cc:392-408 | The marks are written to the leaf's word and its returned copy alike, and memory changes in these marks only |
| Harts.Hart.StoreBytes | interpret.cc:196-215 | Up to two words change, those the stored bytes overlap, and both caches stay as they are |
| Harts.Hart.Sfence | interpret.cc:2245-2249 | In every state: no entry is valid afterwards, so the buffer agrees with the walk whatever was written to the tables; the saved page stays as it is, and the whole invariant holds if that page is sound |
| Harts.Hart.WriteSatp | interpret.cc:622-630 | Taken only with mode 8 and address space 0; then the register changes, no entry is valid and the saved page is dropped |
| Harts.Hart.SetPriv | interpret.cc:436-455 | After a change of privilege no entry is valid; otherwise the buffer stays |
| Harts.Hart.FetchPc | interpret.cc:792-813 | In place, the fetch of the value model; from a valid state the fetch is at the address full translation of pc forms, through a leaf the level may use; a fault enters the trap and drops the saved page |
| Harts.Hart.ReusePage | interpret.cc:796-806 | On the same page the saved frame with the offset of pc, without a translation |
| Harts.Hart.TranslatePc | interpret.cc:799-813 | Otherwise a translation, whose address is saved, or the fetch fault |
| Harts.Hart.AccessData | interpret.cc:271-434 | A data access translates, and a page fault enters the trap with the address as its value |
| Harts.Hart.HandleException | interpret.cc:2472-2535 | The register updates of trap entry are the trap function, whose bits TrapLaws.TrapSaves gives; the saved page is dropped, and the buffer on a change of level |
| Harts.Hart.ExecuteSret | interpret.cc:2258-2281 | The register updates are the sret function, at user level a trap; the buffer is emptied on a change of level and the saved page stays |
| Harts.Hart.ExecuteMret | interpret.cc:2285-2307 | The same for mret, below machine level a trap |
| Harts.Hart.WriteStatus | interpret.cc:584-588 | Writes to sstatus and mstatus change the writable bits only and keep UXL and SXL |
| Harts.Hart.Execute | interpret.cc:816-2310 | Each kind of instruction takes in place the step of the value model |
| Harts.Hart.Step | interpret.cc:722-2535 | One iteration in place: the pending interrupt, or fetch and instruction |
| Harts.Hart.Run | interpret.cc:722-2535 | The loop in place goes through a run of the value model, from the first state to the last, so the theorems over runs hold of the object |
| Traps.TrapThenReturn | interpret.cc:2472-2534 | Trap entry and the matching return, with the level's saved fields untouched, restore privilege and pc and enable the same interrupts as before |
| Traps.NestedTrapThenReturn | interpret.cc:2258-2307 | The same however the handler works and traps, as long as no busy level is entered again; the saved fields of all busy levels survive |
| Traps.BalancedKeeps | interpret.cc:2472-2534 | A balanced activity ends at its level with the saved fields of all busy levels |
| Traps.PrivilegeSafety | interpret.cc:2472-2534 | Privilege rises only by a trap, whose pc is stvec or mtvec and which never lowers it; sret and mret never raise it; status writes keep it. Runs.PrivilegeRises says this of the interpreter's iteration |
| Traps.NoRiseWithoutTrap | interpret.cc:2258-2307 | Between two states of any run without a trap in between privilege does not rise |
| Traps.StepIs64Bit | interpret.cc:457-463 | UXL and SXL stay 2 over every step that writes mstatus |
| Traps.RunIs64Bit | interpret.cc:2266-2305 | UXL and SXL are 2 in every state of every run, so the assertions of sret and mret hold |
| Traps.TakeInterrupt | temu_code.cc:27-62 | On raw bits: the highest of the interrupts 1 to 31 that are pending, enabled and not held back, or 0; at machine level none with MIE clear and none that is delegated, at supervisor level none that is delegated with SIE clear, and with SIE set the highest of mip & mie |
| Traps.WhoHandles | temu_code.cc:27-62 | An interrupt delegated to the supervisor is never chosen in machine mode; the machine handles a chosen one exactly when it is not delegated or interrupts the hypervisor level |
| TrapLaws.QuietAfterTrap | interpret.cc:2472-2534 | Right after a trap, whatever is pending and enabled, no interrupt is taken at machine level, and at supervisor level none that is delegated, so that the machine handles it |
| TrapLaws.HandlerUndisturbed | interpret.cc:722-2535 | Over runs of the interpreter: after a trap to machine level no interrupt is taken until an instruction writes mstatus or returns |
| TrapLaws.InterruptSpares | interpret.cc:722-2535 | An interrupt taken at supervisor level with SIE clear goes to machine level and leaves sepc, scause, stval, SPIE and SPP as they are |
| TrapLaws.TrapSaves | interpret.cc:2472-2534 | Trap entry bit by bit: who handles by mideleg or medeleg, the cause, pc and value saved, the previous level and its enable bit in mstatus, interrupts off, the vector, and every other register and bit unchanged |
| TrapLaws.SretWrites | interpret.cc:2258-2281 | sret bit by bit: pc, level, enable bit, SPIE set, SPP cleared, all else unchanged |
| TrapLaws.MretWrites | interpret.cc:2285-2307 | mret bit by bit, also with hypervisor as the saved level |
| TrapLaws.SstatusMask | interpret.cc:584-588 | A write to sstatus changes exactly the bits of 0xde133 |
| TrapLaws.MstatusMask | interpret.cc:457-463 | A write to mstatus changes exactly the bits of 0xe79bb |
| TrapLaws.InterruptTaken | interpret.cc:775-784 | The interrupt chosen is taken before the instruction at pc is fetched, with all ones as its value |
| TrapLaws.DataAccess | interpret.cc:1743-1777 | Loads and stores go on behind the instruction, or fault with cause 13 and 15 and their address, and change no other register |
| TrapLaws.FetchFault | interpret.cc:808-813 | A fetch that faults has cause 12 and the pc as value |
| TrapLaws.ExecuteRegisters | interpret.cc:816-2310 | What the other instructions do to pc, mstatus and the trap registers |
| TrapLaws.SatpWrites | interpret.cc:622-630 | satp changes only by a CSR write with mode 8 and address space 0 |
| FdtFormat.BigEndianRoundTrip | fdt.cc:98-102 | Words read back from their big-endian bytes are the words written |
| FdtBytes.WordBytes | fdt.cc:98-102 | The four bytes of a word, most significant first |
| FdtBytes.TokenBytes | fdt.cc:117-168 | The token numbers as bytes: 1 for begin_node, 2 for end_node, 3 for a property, 9 for the end |
| FdtBytes.BeginBytes | fdt.cc:117-122 | begin_node byte by byte: the number, the name, its terminating zero and zeros up to a word |
| FdtBytes.PropBytes | fdt.cc:161-168 | A property byte by byte: the number, the length, the offset of the name, the bytes and zeros up to a word |
| FdtBytes.HeaderBytes | fdt.cc:287-320 | The ten words of the header at their byte offsets, with the magic number 0xd00dfeed, versions 17 and 16, and offsets and sizes rounded up to 8 |
| FdtEncoding.OffsetNames | fdt.cc:137-159 | An offset names its string, and goes on naming it however the table grows |
| FdtEncoding.NamesKept | fdt.cc:137-159 | Adding a name keeps every name in the table once, and every offset that named a string goes on naming it |
| FdtEncoding.EncodeAllAligned | fdt.cc:105-115 | The structure block consists of whole words |
| FdtEncoding.TokensRoundTrip | fdt.cc:98-168 | Reading back the tokens of a structure block gives the calls it was written for |
| FdtEncoding.ParseFlatten | fdt.cc:117-168 | Parsing the calls that describe a tree gives the tree back, whatever follows |
| FdtEncoding.HeaderReads | fdt.cc:287-320 | The header words read back from a blob are those of the layout |
| FdtEncoding.LayoutBlocks | fdt.cc:295-320 | Header offsets and sizes delimit disjoint blocks within the blob with the right contents; reservation map, strings and total size are multiples of 8 |
| FdtEncoding.BlobRoundTrip | fdt.cc:272-322 | A blob laid out from the calls that describe a tree decodes to that tree |
| FdtWriter.FdtState.AllocLen | fdt.cc:88-96 | Growing the buffer keeps what was written |
| FdtWriter.FdtState.Put32 | fdt.cc:98-102 | Appends one big-endian word |
| FdtWriter.FdtState.PutData | fdt.cc:105-115 | Appends the bytes with zeros up to whole words |
| FdtWriter.FdtState.FindString | fdt.cc:141-146 | The scan over the table's strings finds a name exactly when it was added before, at an offset that names it |
| FdtWriter.FdtState.GetStringOffset | fdt.cc:137-159 | Returns an offset that names the string, and adds the string exactly when it is new |
| FdtWriter.FdtState.BeginNode | fdt.cc:117-122 | What is written afterwards stands for one more begin_node call |
| FdtWriter.FdtState.EndNode | fdt.cc:131-135 | What is written afterwards stands for one more end_node call |
| FdtWriter.FdtState.AddProp | fdt.cc:161-168 | What is written afterwards stands for one more property with this name and these bytes |
| FdtWriter.FdtState.AddPropTabU32 | fdt.cc:170-179 | The same for a property of 32-bit cells, whose bytes are the big-endian cells |
| FdtWriter.FdtState.Output | fdt.cc:272-322 | Writes the layout of header, structure block with end token, reservation map and strings, returns its size, and touches nothing behind it |
| FdtWriter.DepthOfTree | fdt.cc:280-280 | The calls that describe a tree close every node they open, so the assertion in fdt_output holds |
| FdtWriter.WriteTree | fdt.cc:88-322 | Any tree of NUL-free names and byte-string properties, described through begin_node, prop and end_node and then output, decodes to itself, for a buffer that is large enough |
| Checkpoint.ZeroPage | saveState.cc:96-104 | A page is zero exactly when its 512 words are |
| Checkpoint.OneRecordPerPage | saveState.cc:153-160 | Records are in strictly ascending page order, each describes a page that is not zero, and every such page has one |
| Checkpoint.CountIsRecords | saveState.cc:115-115 | num_nz_pages counts the records |
| Checkpoint.OverlaidPage | saveState.cc:192-197 | Every page after loading: the dumped one if it was not zero, otherwise the one that was there |
| Checkpoint.RestoresExactly | saveState.cc:89-197 | Loading gives back all of memory if and only if every page that is zero in the dump was zero in the memory loaded into; so always into zeroed memory |
| Checkpoint.State.MarkNonZero | saveState.cc:96-104 | The nested scan marks exactly the pages that are not zero |
| Checkpoint.State.DumpState | saveState.cc:89-162 | The file holds every register, the number of records and one record per page that is not zero |
| Checkpoint.State.LoadState | saveState.cc:181-253 | Every register has the value in the header, with priv taken modulo 4, and the records have been written to memory in order |
| Checkpoint.RoundTrip | saveState.cc:89-253 | Dumping one machine and loading into another carries over all saved registers, and memory exactly under the condition above |
| Gf2.RemainderIs | helper.cc:107-125 | Long division over GF(2) finds a remainder of smaller degree that differs by a multiple of the divisor |
| Gf2.RemainderIsUnique | helper.cc:107-125 | There is only one such remainder |
| Crc.PolyReflected | helper.cc:115-115 | The constant of the loop is the Castagnoli polynomial without its leading term, reflected |
| Crc.TimesX | helper.cc:119-121 | One step of the loop multiplies the reflected register by x modulo the reflected polynomial, for every width and polynomial |
| Crc.ReflectBit | helper.cc:107-125 | Reflection turns the low bits round: bit i becomes bit n - 1 - i |
| Crc.UpdateCrc | helper.cc:107-125 | The nested loops compute the byte-wise recursion on the register, within 32 bits |
| Crc.UpdatedIsLongDivision | helper.cc:107-125 | The reflected result is the remainder by long division of register times x^(8n) plus message times x^32 |
| Crc.UpdatedIsRemainder | helper.cc:107-125 | It is the one polynomial of degree below 32 that differs from that by a multiple of the Castagnoli polynomial |
| Crc.UpdatedComposes | helper.cc:107-125 | The CRC of a concatenation is computed piecewise |
| Crc.UpdatedIsLinear | helper.cc:107-125 | The register after the sum of two messages, from the sum of two registers, is the sum of the two results |
| Crc.Crc32 | helper.cc:127-129 | The complement of the returned word, bit-reflected, is the remainder modulo 0x11edc6f41 of the message after a start of 0xffffffff |
| BitVec.ShiftedWordBit | sim_bitvec.hh:227-235 | Bit by bit, what a word holds after a shift by 0 to 16, with the carry from the word below |
| BitVec.SimBitvec.ShiftLeft | sim_bitvec.hh:227-235 | The word loop moves bit i to i + amt over all words, for 0 <= amt <= 16, and fills with zeros |
| BitVec.SimBitvec.SetBit | sim_bitvec.hh:115-125 | Sets one bit and no other |
| BitVec.SimBitvec.UpdateBhr | branch_predictor.cc:24-31 | Keeps get_bit(i) equal to the i-th most recent outcome for all bits in use |
| BitVec.Play | branch_predictor.cc:24-31 | After any sequence of outcomes from a cleared vector get_bit(i) is the i-th most recent one, false before the first |

## Left out

Modelling choices that leave something out:

- History buffer cells are Booleans; the source has bytes that only ever hold 0 and 1.
- Branch histories are those of one thread; the source keeps an array of independent ones.
- calculateParameters is not modelled (it uses a floating-point power); that history lengths are between 1 and maxHist, and that table i is at least 2^i entries long, are assumptions on the parameters.
- The saved arrays of BranchInfo are sequence-valued fields that are replaced, so sharing of its storage block is not captured.
- TageTheorems.AllocationIsSeen: stated for maxNumAlloc 1, the default, where it is an equivalence on one table; TageTheorems.AllocationsAreSeen is the statement for any number of allocations.
- The random number of condBranchUpdate and tCounter are unbounded naturals; the source has an int and a long, and their wrap-around is not modelled.
- TageHashes.PathHashBit: for path histories of more than two words of an index's width, where the source's rotation adds bits that meet, only the arithmetic of the rotation is given (TurnedByDivision).
- getGHR, getSizeInBits, statistics and the provider field of the predictor, and the gem5_tage wrapper.
- Cache list nodes are indices into the node array instead of pointers; associativity 1 is excluded, because eviction then follows a null prev pointer; hit and access counters are unbounded.
- direct_mapped_cache, the std::list buffer class tlb, store_to_load_tracker and the cache's time statistics.
- Translation is with dtlb null and without the data cache, tracers and page-size counters; page tables are in memory and outside the device ranges, and memory is total on words.
- Harts.Hart.Translate: as in the source, hits do not repeat the permission checks, so faults are stated only for accesses without a usable entry.
- Cores.FetchSteady: after a fetch that the buffer granted, the leaf, the address and the user bit are claimed but not the execute permission, because the buffer has one entry for data and code and does not check it; after a fetch granted by a walk all checks are claimed, on the same page also later.
- Runs.RunFetchesSoundly: the instructions and the pending interrupts of each iteration are inputs of the run; that the words fetched decode to these instructions is not modelled. A failed fetch assertion leaves the state as it is.
- Runs.RunValid: a run may change the page tables in use only as its hypotheses say, which name the words a store must spare; Cores.StoreKeepsExactly shows which words these must be, and FetchReuse shows by ReturnSoundExactly and FenceSoundExactly which returns and fences can break the saved page.
- Harts.Hart.StoreBytes: memory is held by aligned words; the new values of the one or two words that a store reaches are inputs, so how bytes merge into a word is not modelled. The device ranges are not modelled.
- A failed assertion of the source in the walk (a size bit in a pointer, an unknown size encoding, satp in another mode) is the outcome Abort and not modelled further.
- Traps.TrapThenReturn: a trap from user level saves the user enable bit, and sret writes it back to that bit, so SIE itself is not restored; what is restored is the set of interrupts that can be taken.
- Exceptions and interrupts are numbered below 32; instruction decoding, the arithmetic units, CSRs without a role in translation or traps, the reservation of load reserved and store conditional (a failed store conditional is a store of no bytes), floating point, compressed instructions, device models and syscalls are not part of this model.
- FdtWriter.WriteTree: requires that all lengths and positions fit an int, as the source's counters do.
- The wrappers fdt_prop_u32, fdt_prop_tab_u64, fdt_prop_str and fdt_prop_tab_str, which assemble bytes and call the two property writers, and the fixed tree of riscv_build_fdt.
- Checkpoint files are a header record and page records; the packed byte layout, file handling, the check of the magic number and the extraction of a kernel image are not modelled.
- Checkpoint.RoundTrip: tohost and fromhost addresses are written to the file but the source does not load them; fields of the state that are not saved are not modelled.
- Crc.UpdateCrc: the portable loop only; on amd64 the source uses a processor instruction instead.
- The other operations of the bit vector (popcount, searches, hashes) and the predictors that do not use it.
