# A verified model of the SimpleScalar 3.0 core structures

The simulators keep several fast, stateful structures that have to agree with something much
simpler. This project models those structures in the form they have in the C sources (links,
tables, counters and loops updated in place), gives each a plain specification, and proves that
the structure follows the specification over every run.

| C source | files here | the simple thing it must agree with |
|---|---|---|
| `lab3/cache.c` | `CacheModel`, `CacheTransparency`, `CacheLaws`, `CacheInclusion`, `CacheTiming`, `CacheAges`, `CacheLists`, `CacheUnit`, `CacheFaults` | one flat 32-bit memory, the ages of its blocks, the costs of its calls |
| `lab3/bpred.c`, `lab3/sim-bpred.c` | `ReturnStack`, `BranchTargets`, `Directions`, `BranchPredictor`, `BranchRun` | an unbounded call stack, a recency list, the last outcomes and targets of a run |
| `lab2/memory.c`, `lab2/memory.h` | `PagedMemory` | a flat memory that starts as zeros |
| `lab2/eio.c` | `EioTrace`, `Checkpoint` | the access log of a system call, the memory image |
| `lab2/misc.c` | `NumberText`, `Crc` | numbers and their digits in either case, division of polynomials |
| `lab2/eval.c` | `Arithmetic`, `Evaluator`, `ExpressionText` | a grammar over characters, and what sums, differences, products and quotients are |
| `lab2/eventq.c` | `EventQueue`, `EventLedger` | a sorted sequence of events, and a ledger of all events |
| `lab2/sim-safe.c` | `SatPredictor` | the two constant predictions |

`Pow2`, `Options`, `FlatMemory`, `Recency`, `Links` and `HashChains` hold what several modules
share: powers of two, values that may be missing, byte memories, lists without repetition, and
linked lists threaded through tables of numbered nodes. A link is a node number, and NULL is -1.

How to read the cache: `CacheModel` is the state machine of the cache without any links, with an
arbitrary stream of block-access latencies and of random numbers. `CacheTransparency`, `CacheLaws`,
`CacheInclusion`, `CacheTiming` and `CacheAges` prove the theorems about all of its runs: which bytes
are read, what is counted, which blocks are kept and which one goes, what each operation costs and
when a block arrives. `CacheLists` holds the way-list and
hash-chain code on one set, and `CacheUnit.Cache` is the object with the last-block shortcut; each
of its methods is proved to make exactly the step of `CacheModel`, so the theorems are about it.
In the same way every class below keeps a ghost value next to its real fields, `Valid()` ties the
two together, and each method says what it does to the value.

What a specification computes is stated again without it: the operators of the evaluator by the sum,
product and remainder that they leave (`Arithmetic.Operated`), its texts by a grammar over characters
(`ExpressionText.Writes`), branch predictions by the branches before them (`BranchRun.Foreseen`), table
indices by their bits, the checksum by quotient and remainder, mispredictions by the outcomes alone.

Numbers are unbounded where C's width does not matter. Addresses are 32 bits and wrap where C
wraps them (`FlatMemory.Wrap`); sizes that C checks to be powers of two are used with division and
remainder in place of shifts and masks.

Where the code does less than one would expect, the exact condition is proved instead:

- `cache_access` compares both ends of an access in wrapping arithmetic (lab3/cache.c:527), so it
  refuses nearly all accesses to the topmost block and accepts some that leave their block
  (`CacheFaults.SpanCheckExact`, `OverrunExact`, `TopBlockRefused`).
- "No last block" is stored as tagset 0, which is the tagset of block 0. An access to block 0 that
  passes the checks follows a null pointer exactly when no block is remembered, that is, unless the
  latest hit, miss or flush of anything was a hit (`CacheFaults.BlockZeroExact`,
  `NullBlockExact`). With this, `CacheFaults.RunsExactly` says which runs complete, so it tells when
  the theorems about completed runs apply.
- The assertion in the BTB scan fails exactly for branch address 0 in a set where at most n - 2
  different branches have been taken, n being the number of ways; with more it never fails
  (`BranchTargets.ScanAssertion`).
- A two-level table keeps the histories of a branch apart exactly when it has a counter for each;
  a smaller one merges the histories that agree in their latest outcomes
  (`Directions.HistoriesApartExactly`, `HistoriesMeet`).
- After a misprediction the open calls still return right if the wrong path pushes only above the
  top of stack, and not so far that it reaches their entries
  (`ReturnStack.ReturnsSurviveWrongPaths`).
- `mem_bcopy4` does what `mem_bcopy` does exactly when it starts aligned, or has no word to copy,
  and the bytes after the last whole word need no copying (`PagedMemory.Bcopy4Exact`).
- A return is predicted, whatever its return address, exactly when the calls inside nest less deeply
  than the stack (`ReturnStack.ReturnPredictedIff`).
- A callback of the event queue loses exactly the events it queues for its own time or before
  (`EventQueue.CallbackKeepsAll`).
- `%ld` of the most negative number parses back to the right value but reports a range error
  (`NumberText.SignedRoundTrip`), and a signed hexadecimal literal is not recognised in base 0
  (`NumberText.SignedHexStops`).
- Replaying a recorded system call passes its input checks exactly when every read succeeded or its
  buffer already held the right bytes (`EioTrace.ReplayChecksExact`); and it restores memory, from
  every memory, exactly when at each address the last logged byte and the last byte really written
  are the same, or both missing, since faulting writes are logged as well
  (`EioTrace.FaultingWritesExact`).
- A symbol as first operand of `+`, `-` or `*` hides the error of what follows it, as
  `Evaluator.Joined` says; otherwise the first failing construct is reported, where it is
  (`Evaluator.ErrorLocated`).

## Model

| member | source | states |
|---|---|---|
| CacheModel.AddressSplit | lab3/cache.c:61-70 | tag and set of an address give its block number back, and MK_BADDR of them is the block address |
| CacheTransparency.Transparency | lab3/cache.c:500-720 | in every run of accesses, flushes and address flushes under any policy, each read returns the bytes a flat memory holds then, and right after a whole flush the backing memory is that flat memory |
| CacheTransparency.RunCoherent | lab3/cache.c:500-862 | after every run, a block's bytes (in its valid line, or else in memory) are those of the flat memory, for all blocks |
| CacheTransparency.FlushCoherent | lab3/cache.c:766-800 | a whole flush of a coherent cache leaves the flat memory itself in the backing memory |
| CacheTransparency.FlushAddrCoherent | lab3/cache.c:805-862 | flushing one block changes no byte that the cache and memory together stand for |
| CacheTransparency.AccessCoherent | lab3/cache.c:500-720 | one access of a coherent cache returns or stores the right bytes of the flat memory and keeps the cache coherent with it, on hit and miss |
| CacheTransparency.EvictCoherent | lab3/cache.c:596-621 | writing a victim back loses no byte, whatever its dirty bit |
| CacheTransparency.AccessInv | lab3/cache.c:500-720 | an access keeps valid tags unique in each set and clean lines equal to memory |
| CacheLaws.Conservation | lab3/cache.c:568-858 | in every run valid blocks are misses less replacements less invalidations, and writebacks plus dirty blocks are the clean-to-dirty transitions |
| CacheLaws.GrantTimes | lab3/cache.c:597-611 | a replacement gets a bus cycle not before the request; it respects the victim's ready time when that wait is not cut, and the bus exactly when the bus wait is not cut |
| CacheLaws.BusBound | lab3/cache.c:604-611 | in every run all granted bus cycles are below the bus free time, and an uncut grant comes after every earlier grant |
| CacheLaws.BusExclusive | lab3/cache.c:604-611 | no two replacements of a run share a bus cycle, when the later one's waits are not cut |
| CacheTiming.GrantExact | lab3/cache.c:597-611 | a replacement gets the earliest bus cycle that is not before the request, the arrival of the victim and the end of earlier bus use, with the exact cycle when a wait is cut; it takes one cycle, and reports the victim's address |
| CacheTiming.AccessGrant | lab3/cache.c:565-653 | an access is granted a bus cycle exactly when it misses and its victim is valid, and otherwise leaves the bus alone |
| CacheTiming.AccessCost | lab3/cache.c:596-720 | a hit costs the larger of the hit latency and what remains until its block arrives; a miss costs the latencies of its one or two block accesses plus the wait until its bus cycle, and its block arrives just then |
| CacheTiming.FlushCost | lab3/cache.c:766-862 | a flush of everything or of one block costs the hit latency plus the latencies of its block accesses, one for each writeback |
| CacheTiming.ReadyKept | lab3/cache.c:500-862 | no operation changes the arrival time of a block that stays in the cache |
| CacheTiming.ArrivesAt | lab3/cache.c:500-862 | in every run a block fetched by an operation and kept since arrives when the latency reported for that operation has passed |
| CacheTiming.HitPays | lab3/cache.c:500-862 | so the next access to it, at any time, costs what is left of that latency and no less than the hit latency |
| CacheAges.AccessContents | lab3/cache.c:500-720 | after an access exactly the block accessed and the former blocks, less the one reported as replaced, are in the cache; and that one was there, in the same set |
| CacheAges.FlushContents | lab3/cache.c:766-862 | a flush leaves no block, an address flush all but its own |
| CacheAges.CountersExact | lab3/cache.c:500-862 | in every run hits and misses count the accesses whose block was and was not in the cache, and replacements the bus cycles granted |
| CacheAges.RunByAge | lab3/cache.c:192-689 | in every run the blocks of a way list are ordered by age: under LRU by their last use, under FIFO by their last fetch |
| CacheAges.ReplacesOldest | lab3/cache.c:565-621 | in every run the block replaced is the one used longest ago under LRU, and fetched longest ago under FIFO, of all blocks of its set |
| CacheInclusion.RunOrdered | lab3/cache.c:572-857 | under LRU and FIFO the valid blocks come first in every way list, in every reachable state |
| CacheInclusion.ReplacedOnlyWhenFull | lab3/cache.c:572-577 | under LRU and FIFO a valid block is replaced only when every block of its set is valid |
| CacheInclusion.LruInclusion | lab3/cache.c:540-858 | two LRU caches of equal sets and blocks on one trace: the small one's valid tags in way order are always a prefix of the large one's, and it has no more hits |
| CacheInclusion.HitsCarryOver | lab3/cache.c:540-563 | after any common trace, every address that hits in the small LRU cache hits in the large one |
| CacheFaults.SpanCheckExact | lab3/cache.c:520-528 | for aligned accesses, the spanning check passes exactly when the access ends at the top of memory, or fits a block that is not the topmost |
| CacheFaults.OverrunExact | lab3/cache.c:524-528 | an accepted access leaves its block exactly when it is larger than a block, and then it ends at the top of memory |
| CacheFaults.OverrunWitness | lab3/cache.c:524-528 | such an access: 16 bytes at 0xfffffff0 with 8-byte blocks |
| CacheFaults.TopBlockRefused | lab3/cache.c:524-528 | every access to the topmost block that fits it and does not end at its end is refused, read or write |
| CacheFaults.BlockZeroExact | lab3/cache.c:532-538 | an access follows the null last block exactly when it passes both checks, is to block zero, and no block is remembered |
| CacheFaults.Remembered | lab3/cache.c:532-846 | after any completed run a block is remembered exactly when some operation hit it and since then there were only address flushes of blocks not cached |
| CacheFaults.NullBlockExact | lab3/cache.c:520-720 | after any completed run the next access follows the null pointer exactly when it passes the checks, is to block zero, and the run does not end in a hit (up to flushes without effect) |
| CacheFaults.RunsExactly | lab3/cache.c:500-862 | a run completes exactly when every access is sized, aligned, no larger than a block, at the end of memory or outside its topmost block, and every access to block zero finds a remembered block |
| CacheFaults.OrdinaryRuns | lab3/cache.c:500-862 | a run whose accesses are all accepted by the checks, fit a block and avoid block zero completes, whatever it flushes in between |
| CacheLists.UpdateWayList | lab3/cache.c:192-256 | the doubly linked way list is relinked to the same list with the block first or last; its assertions hold |
| CacheLists.UnlinkHash | lab3/cache.c:143-173 | the chain walk finds the block, and afterwards it is on no chain while all other blocks stay on the chain of their tag |
| CacheLists.LinkHash | lab3/cache.c:175-186 | the block is pushed on its chain and no other chain changes |
| CacheLists.Search | lab3/cache.c:540-563 | the search by hash chain or way list finds the way that a plain scan of all ways finds, or none |
| CacheLists.CreateSet | lab3/cache.c:358-399 | slicing up the blocks gives a set whose way list holds all ways and whose chains hold each block once |
| CacheLists.CopyOut | lab3/cache.c:97-115 | the read copy, by datum or by words, returns the bytes at the block offset |
| CacheLists.CopyIn | lab3/cache.c:116-137 | the write copy changes the bytes at the block offset and no others |
| CacheUnit.Cache.constructor | lab3/cache.c:261-403 | cache_create builds the initial state of the model, with its links |
| CacheUnit.Cache.Access | lab3/cache.c:500-720 | cache_access makes the model's step, with the same data, latency, replaced address or fault |
| CacheUnit.Cache.FastHit | lab3/cache.c:691-719 | the last-block hit, which relinks nothing, ends in the state of a slow hit |
| CacheUnit.Cache.SlowHit | lab3/cache.c:656-689 | the slow hit counts, copies, marks dirty, promotes under LRU, and remembers the block |
| CacheUnit.Cache.MissPath | lab3/cache.c:565-653 | the miss path chooses, unlinks, writes back, refills and relinks as the model says |
| CacheUnit.Cache.SelectVictim | lab3/cache.c:568-586 | the way-list tail, or a random way, is chosen, and the list is reordered |
| CacheUnit.Cache.WriteBackVictim | lab3/cache.c:596-621 | waits, bus time, counters and memory after dealing with the victim |
| CacheUnit.Cache.Probe | lab3/cache.c:726-762 | the probe answers whether the address would hit |
| CacheUnit.Cache.FlushAll | lab3/cache.c:766-800 | cache_flush makes the model's step with the same total latency |
| CacheUnit.Cache.FlushBlock | lab3/cache.c:805-862 | cache_flush_addr makes the model's step with the same latency |
| CacheUnit.LastIsBlock | lab3/cache.c:532-538 | the last-block test picks the block that a search would find, and under LRU that block heads its way list |
| CacheUnit.HeadStays | lab3/cache.c:671-676 | a block without predecessor is the head, and moving it to the head changes nothing, so skipping the move is right |
| ReturnStack.NestedReturnsPredicted | lab3/bpred.c:642-666 | for well-nested code with at most as many open calls as stack entries, every return is predicted at the address after its call |
| ReturnStack.ReturnPredictedIff | lab3/bpred.c:642-666 | a return finds what its call pushed, whatever that was, exactly when the nesting inside the call stays below the stack size |
| ReturnStack.BodyKeeps | lab3/bpred.c:642-666 | well-nested code brings the top of stack back to where it was and keeps all slots its depth does not reach |
| ReturnStack.BodyPushes | lab3/bpred.c:642-666 | well-nested code pushes at the heights 1 to its depth and at no other |
| ReturnStack.SlotAfter | lab3/bpred.c:642-666 | after any calls and returns each slot holds what was pushed there last, and the top of stack follows the height |
| ReturnStack.RecoverExact | lab3/bpred.c:720-733 | after a wrong path and a recovery a slot is restored, whatever it held, exactly when the wrong path pushed nothing onto it |
| ReturnStack.RecoverRestores | lab3/bpred.c:720-733 | a wrong path that pushes only above the saved top, by at most size - k, leaves the k topmost entries as they were |
| ReturnStack.ReturnsSurviveWrongPaths | lab3/bpred.c:642-733 | in well-nested code with mispredicted branches every return of the right path is predicted right, if each wrong path pushes only above the top and reaches no slot of an open call, and no more calls are open than fit |
| ReturnStack.PathKeeps | lab3/bpred.c:642-733 | such code brings the top of stack back and keeps the slots of all open calls |
| ReturnStack.NestedIsHarmless | lab3/bpred.c:642-666 | without mispredictions the condition is that the code nests no deeper than the stack |
| ReturnStack.RingSteps | lab3/bpred.c:646-661 | the remainders that move the top of stack are the two steps around the ring |
| ReturnStack.ReturnAddressStack.Lookup | lab3/bpred.c:633-666 | lookup reports the old top, pops a prediction for a return, pushes the next address for a call, and does nothing for an empty stack |
| ReturnStack.ReturnAddressStack.RecoverTo | lab3/bpred.c:724-733 | recovery sets the top of stack and keeps the entries |
| BranchTargets.MostRecentFirst | lab3/bpred.c:844-984 | after any taken updates that the scan assertion lets through, a set holds the most recently taken branches, latest first, as many as fit; so the victim is the least recently taken one |
| BranchTargets.RecentOrder | lab3/bpred.c:844-906 | the recency list is ordered by the last time each branch was taken |
| BranchTargets.RecentMembers | lab3/bpred.c:844-906 | the recency list has each taken branch once and no other |
| BranchTargets.LatestTargets | lab3/bpred.c:966-984 | when correct predictions are reported truthfully, every entry holds the latest target of its branch |
| BranchTargets.Unique | lab3/bpred.c:855-873 | no nonzero branch address is stored twice in a set |
| BranchTargets.EntriesBelong | lab3/bpred.c:670-846 | every branch stored in a set has that set as its index |
| BranchTargets.ScanAssertion | lab3/bpred.c:857-862 | the assertion of the scan fails exactly for branch address zero in a set of n ways where at most n - 2 different branches have been taken |
| BranchTargets.ScanAssertionWitness | lab3/bpred.c:857-862 | it does fail in a fresh set of two or more ways |
| BranchTargets.MatchesAgree | lab3/bpred.c:685-694 | all entries that match an address, also address zero, have the target of the first one, so the order of looking does not matter |
| BranchTargets.MoveToHead | lab3/bpred.c:887-901 | the splice of prev and next links turns the list into the one with the entry first |
| BranchTargets.Btb.constructor | lab3/bpred.c:127-152 | every set starts as one list of its ways in table order, all empty |
| BranchTargets.Btb.Scan | lab3/bpred.c:853-877 | the scan finds the match and both list ends, its debug assertions hold, and it stops exactly when two entries match |
| BranchTargets.Btb.Update | lab3/bpred.c:844-984 | a taken branch makes one more update in the history of its set, and nothing else changes; the assertion stops it exactly for address zero with at most assoc - 2 branches taken in the set |
| BranchTargets.Btb.Lookup | lab3/bpred.c:669-694 | an address hits exactly when stored, with the stored target |
| Directions.HistoriesApart | lab3/bpred.c:499-535 | in a table with a counter for each history, different histories of one branch use different counters, with and without xor |
| Directions.HistoriesMeet | lab3/bpred.c:499-535 | in a table with no more counters than histories, two histories share a counter exactly when they agree in their latest outcomes, as many as the index has bits, with and without xor |
| Directions.HistoriesApartExactly | lab3/bpred.c:499-535 | a table keeps all histories of a branch apart exactly when it has a counter for each |
| Directions.RegisterIsLastOutcomes | lab3/bpred.c:829-841 | a shift register is the binary number of the last outcomes of its branches, as many as it is wide |
| Directions.RegisterStep | lab3/bpred.c:834-840 | shifting and masking one register adds an outcome to that register and to no other |
| Directions.TwoInARow | lab3/bpred.c:914-927 | two equal outcomes in a row decide a saturating counter's next prediction |
| Directions.IndexBits | lab3/bpred.c:484-515 | bit k of the bimodal index is the exclusive or of bits k + 19 and k + 3 of the branch address; bit k of the history register's number is bit k + 3 |
| Directions.L2Bits | lab3/bpred.c:508-535 | the second-level index has the history below, where asked for xored with the branch address, and the branch address above |
| Directions.Saturates | lab3/bpred.c:914-942 | three equal outcomes saturate a counter: then one other outcome does not turn its prediction, two do, and one more turns it back |
| Directions.BothLearn | lab3/bpred.c:914-942 | two equal outcomes in a row train both direction counters, the one believed and the other |
| Directions.ChoiceLearns | lab3/bpred.c:944-964 | after two branches for which just one component was right, the meta counter chooses that component |
| Directions.CounterLearns | lab3/bpred.c:499-927 | a counter whose history was met twice predicts what that history determines |
| Directions.PredictAll | lab3/bpred.c:554-984 | a branch determined by its recent outcomes is mispredicted at most twice per history |
| Directions.DirPredictor.Lookup | lab3/bpred.c:588-622 | which counters a conditional branch uses, and that the meta counter chooses the first one |
| Directions.DirPredictor.UpdateHistory | lab3/bpred.c:829-841 | the register of the branch takes the outcome; all registers keep agreeing with the log |
| Directions.DirPredictor.UpdateCounters | lab3/bpred.c:914-964 | direction counters follow the outcome, the meta counter moves towards the one right component, all stay in 0..3 and no other counter changes |
| Directions.DirPredictor.constructor | lab3/bpred.c:184-262 | tables of the checked sizes start weakly not taken and weakly taken in turn, with empty histories |
| BranchPredictor.Predictor.Lookup | lab3/bpred.c:554-714 | the predicted address for each class and kind of branch: from the stack, or 0 below counter 2, or else the target in the BTB, or 1 |
| BranchPredictor.Predictor.Recover | lab3/bpred.c:724-733 | recovery through the whole predictor |
| BranchPredictor.Predictor.Update | lab3/bpred.c:744-984 | when history, BTB and counters are updated and when they are left alone; when exactly the scan assertion stops it, and what has been updated by then |
| BranchPredictor.RunCode | lab3/bpred.c:633-733 | driving lookups and recoveries with well-nested code and harmless wrong paths predicts every return of the right path and brings the top of stack back |
| BranchPredictor.FollowPath | lab3/bpred.c:633-733 | lookups of a path, with its wrong paths and recoveries through the whole predictor, make the stack and the predictions of the path |
| BranchRun.RunBranches | lab3/sim-bpred.c:510-547 | looking up and updating with every branch of a run, each prediction is the one that the branches before it say; the run stops early only at a branch of address zero |
| BranchRun.Execute | lab3/sim-bpred.c:518-546 | one branch: an unconditional one is predicted where it last jumped if fewer other branches of its set than ways have jumped since, else 1; a conditional one likewise if the saturating count of the outcomes that share its two-bit counter is at least 2, else 0 |
| BranchRun.TakenTwice | lab3/bpred.c:705-984 | a conditional branch that jumped twice in a row is next predicted where it jumped last |
| BranchRun.NotTakenTwice | lab3/bpred.c:705-984 | one that did not jump twice in a row is next predicted not taken |
| BranchRun.NeverJumped | lab3/bpred.c:697-701 | an unconditional branch that never jumped is predicted 1 |
| BranchRun.JumpsAgain | lab3/bpred.c:697-984 | an unconditional branch is predicted where it last jumped, as long as fewer branches followed than a set has ways |
| BranchRun.FindsKept | lab3/bpred.c:669-984 | a set holds a branch exactly when fewer others than ways have been taken since its last time, with its latest target |
| BranchRun.SetBits | lab3/bpred.c:670-670 | bit k of the set number is bit k + 3 of the branch address |
| PagedMemory.PteAddrInverts | lab2/memory.h:105-116 | the set and tag split of an address and MEM_PTE_ADDR invert each other |
| PagedMemory.Mem.Translate | lab2/memory.c:79-107 | the entry of a page is found exactly if there is one, and moving it to the front changes no byte of memory |
| PagedMemory.Mem.Page | lab2/memory.h:118-127 | looking at the bucket head first finds what the full walk finds |
| PagedMemory.Mem.NewPage | lab2/memory.c:111-135 | a new page is zero, so memory is unchanged; one more page is counted |
| PagedMemory.Mem.ReadByte | lab2/memory.h:150-153 | a byte read is the byte of the flat memory, zero where no page exists, and no page is allocated |
| PagedMemory.Mem.WriteByte | lab2/memory.h:132-164 | a byte write changes that byte of the flat memory alone and allocates a page exactly when there was none |
| PagedMemory.Mem.Access | lab2/memory.c:141-219 | sizes and alignments are checked, then all bytes are copied, wrapping at the top of memory |
| PagedMemory.AccessFaults | lab2/memory.c:149-155 | no fault exactly for the sizes 1 to 4096 that are powers of two, aligned to their size, and for the empty access at address zero; which fault otherwise, and nothing is copied then |
| PagedMemory.Mem.Bcopy | lab2/memory.c:341-361 | the byte copy moves all bytes and never faults |
| PagedMemory.Mem.Bcopy4 | lab2/memory.c:367-390 | the word copy moves whole words, and faults at the first word of an unaligned address |
| PagedMemory.Bcopy4Agrees | lab2/memory.c:363-390 | the word copy equals the byte copy on aligned multiples of four |
| PagedMemory.Bcopy4Exact | lab2/memory.c:363-390 | for all reads and writes, the word copy equals the byte copy exactly when it has no word to copy or starts aligned, and the bytes behind the last whole word are already the same on both sides |
| PagedMemory.CopyStep | lab2/memory.c:341-390 | two copies in a row are one copy |
| Checkpoint.RoundTrip | lab2/eio.c:287-460 | loading the pages of a memory over another gives that memory exactly when the pages that were not written are zero there; so an empty memory always gives it |
| Checkpoint.WriteCheckpoint | lab2/eio.c:250-298 | the records are the memory's pages at their addresses, one for each page table entry and no address twice, and as many as the count says |
| Checkpoint.ReadCheckpoint | lab2/eio.c:430-460 | reading writes the blobs in order, and fails exactly when records are missing |
| Checkpoint.SaveAndRestore | lab2/eio.c:287-460 | a checkpoint written and read into a fresh memory reproduces every byte |
| EioTrace.RecordedFlattens | lab2/eio.c:519-555 | coalescing accesses into blobs keeps the exact byte log |
| EioTrace.ReplayFaithful | lab2/eio.c:492-807 | if no access of a guarded call faults, its transaction replayed from the same memory passes every check and gives the same memory |
| EioTrace.ReplayChecksExact | lab2/eio.c:504-736 | behind the guard the input checks pass exactly when each read succeeded or its buffer already held the memory's bytes |
| EioTrace.ChecksExact | lab2/eio.c:492-780 | guarded or not, the input checks pass exactly when every read saw the initial memory, with faults |
| EioTrace.WritesReplay | lab2/eio.c:781-807 | writing the logged outputs gives the memory the call left, if its writes did not fault |
| EioTrace.FaultingWrites | lab2/eio.c:492-807 | from a given memory, replaying all logged writes gives the memory the call left exactly when each address ends with the same byte in both |
| EioTrace.FaultingWritesExact | lab2/eio.c:492-807 | replay restores every memory exactly when, at each address, the last byte of all logged writes and the last byte of the faultless writes are the same or both missing |
| EioTrace.GuardNeeded | lab2/eio.c:504-505 | without the read-after-write guard, a fault-free call passes the checks of its replay exactly when each byte it reads was not written before, or was written as it was |
| EioTrace.FaultingWriteBreaks | lab2/eio.c:507-562 | a call whose one write faults, and whose replay does change memory |
| EioTrace.ReRecord | lab2/eio.c:594-600 | recording a replay gives the logs of the replayed transaction |
| EioTrace.Recorder.Record | lab2/eio.c:519-555 | one access joins the last blob exactly if it starts at its end and fits below its limit, and otherwise opens one with room for 256 bytes more; and the log grows by its bytes |
| EioTrace.Tracer.MemFn | lab2/eio.c:492-565 | a read after a write is fatal; otherwise the access happens and is logged on its side |
| EioTrace.Tracer.Perform | lab2/eio.c:594-600 | a call is recorded exactly if it reads nothing after writing; the two lists are its two logs |
| EioTrace.Machine.WriteTrace | lab2/eio.c:571-630 | a transaction holds instruction count, PC, registers 2 to 7 before and after, break point and both logs |
| EioTrace.Machine.ReadTrace | lab2/eio.c:636-810 | replay succeeds exactly when count, PC, input registers and input bytes match, and installs the outputs |
| EioTrace.RecordAndReplay | lab2/eio.c:571-810 | a fault-free call recorded on one machine and replayed on an equal one succeeds exactly if guarded, and ends in the same state |
| NumberText.UnsignedRoundTrip | lab2/misc.c:602-985 | every 64-bit number printed with %lu parses back in base 0, to the end of the text |
| NumberText.HexRoundTrip | lab2/misc.c:623-985 | every 64-bit number printed as 0x%lx parses back in base 0 |
| NumberText.SignedRoundTrip | lab2/misc.c:547-893 | every signed 64-bit number printed with %ld parses back, with a range error for the most negative one only |
| NumberText.SignedHexStops | lab2/misc.c:808-834 | a sign before 0x makes base 0 decimal, so only the digit 0 is read |
| NumberText.CaseDoesNotMatter | lab2/misc.c:789-985 | changing letters between lower and upper case changes no result of either parser, for every text and base |
| NumberText.AnyHexRoundTrip | lab2/misc.c:896-985 | every 64-bit number in hexadecimal, with digits and prefix in any mixture of cases, parses back in bases 0 and 16 |
| NumberText.ReadsSigned | lab2/misc.c:789-893 | spaces, a sign, a prefix where base 16 allows it, digits of any case behind any zeros, and anything that does not continue them: the number is read to the end of its digits, or clamped to the nearer bound with a range error, in every base |
| NumberText.ReadsUnsigned | lab2/misc.c:896-985 | the same without a sign, clamped to 2^64 - 1 |
| NumberText.ReadsNoHex | lab2/misc.c:896-985 | a prefix without a digit behind it is no number: nothing is read and errno is left alone |
| NumberText.ReadsNothing | lab2/misc.c:789-985 | nor is a text without a digit behind its spaces and sign |
| NumberText.TruncatedDigit | lab2/misc.c:588-596 | the digit computed from numbers cut to 32 bits is the true last digit |
| NumberText.LowDigit | lab2/misc.c:400-413 | _lowdigit gives the last decimal digit and the number divided by ten |
| NumberText.TextReads | lab2/misc.c:579-662 | the digits of a number in any base read back as the number |
| NumberText.Cutoff | lab2/misc.c:850-856 | the cutoff test of the parsers is exact: it triggers just when the next number exceeds the maximum |
| NumberText.Accumulate | lab2/misc.c:845-963 | the digit loop reads the longest run of digits and overflows exactly when their number exceeds the maximum, for texts of any length |
| NumberText.Atoq | lab2/misc.c:896-985 | white space, base, prefix, digits, clamping to 2^64 - 1, end pointer and errno of myatoq |
| NumberText.Atosq | lab2/misc.c:789-893 | the same for myatosq, with sign and clamping to both signed bounds |
| NumberText.PrintUnsigned | lab2/misc.c:577-612 | %lu prints the decimal digits of every 64-bit number, through _lowdigit when the high bit is set |
| NumberText.PrintSigned | lab2/misc.c:547-600 | %ld prints sign and decimal digits, also of the most negative number |
| NumberText.PrintBits | lab2/misc.c:614-662 | %lx and %lo print the digits of every 64-bit number, zero as one digit |
| Crc.ChecksumDivides | lab2/misc.c:1171-1189 | the table-driven checksum of any word sequence is the remainder of its bits divided one by one |
| Crc.ByteStepDivides | lab2/misc.c:1184-1187 | one table step divides eight message bits |
| Crc.SerialIsRemainder | lab2/misc.c:1144-1189 | the register after a message is the remainder of the message and the former register, as polynomials, divided by the generator with exponents 32, 26, 23, 22, 16, 12, 11, 10, 8, 7, 5, 4, 2, 1 and 0 |
| Crc.RemainderOnce | lab2/misc.c:1144-1189 | such a division has one quotient and one remainder |
| Crc.MessageBit | lab2/misc.c:1171-1189 | message bits are those of the words in order, low byte first and high bit first |
| Crc.SerialXor | lab2/misc.c:1171-1189 | the remainder is linear in register and message together |
| Crc.UpdateXor | lab2/misc.c:1171-1189 | so is the update with one word |
| Crc.BurstDetected | lab2/misc.c:1142-1189 | messages that differ only within 32 consecutive bits have different remainders |
| Crc.WiderBurstMissed | lab2/misc.c:1144 | a difference of 33 bits, the generator itself, goes unnoticed in every message |
| Crc.ResidueZero | lab2/misc.c:1171-1189 | a message followed by its remainder has remainder zero |
| Crc.Table.Gentab | lab2/misc.c:1149-1168 | the table holds the remainder of every byte |
| Crc.Table.Crc | lab2/misc.c:1171-1189 | crc builds the table once and updates by four table steps, low byte first |
| Crc.ChecksumAll | lab2/misc.c:1171-1189 | feeding a message word by word gives its bit-serial remainder, which is that of the division of polynomials |
| Arithmetic.Computed | lab2/eval.c:517-719 | an operator gives the one value of the common type that is, modulo its width, the sum or product of the operands, or added to the second gives the first, or is the quotient of the converted operands truncated towards zero; for reals likewise exactly; and an error exactly when there is none, for a symbol or a zero divisor |
| Arithmetic.NegateComputes | lab2/eval.c:722-794 | negation gives the one value that added to the operand gives zero, in int, unsigned or 64 bits, the first that holds it; addresses and 64-bit numbers wrap |
| Arithmetic.TruncatesOnce | lab2/eval.c:663-719 | a number divided by another has one quotient that is as long as it can be towards zero and has the right sign |
| Arithmetic.Widening | lab2/eval.c:247-271 | the order of the arithmetic conversions |
| Evaluator.MeaningComputes | lab2/eval.c:938-1067 | a tree means the value that the operators compute from the values of its leaves, and has none if they compute none |
| Evaluator.EvalState.EvalExpr | lab2/eval.c:1096-1124 | there is no error exactly when the text begins with an expression that computes a value, which then is returned; on every exit endp is just behind the last token used, and an error is what and where it says |
| Evaluator.EvalState.Expr | lab2/eval.c:1037-1067 | value, error and position are those of evaluating an expression |
| Evaluator.EvalState.Term | lab2/eval.c:996-1032 | value, error and position are those of evaluating a term |
| Evaluator.EvalState.Factor | lab2/eval.c:938-991 | value, error and position are those of evaluating a factor |
| Evaluator.EvalState.GetNext | lab2/eval.c:121-206 | the next token, its text and the position behind it, with or without a peeked token |
| Evaluator.EvalState.PeekNext | lab2/eval.c:212-223 | peeking reports the next token and consumes nothing |
| Evaluator.EvalState.Quotient | lab2/eval.c:666-1026 | division fails exactly for symbols and zero divisors, and sets the error of each |
| Arithmetic.DivisorStaysNonzero | lab2/eval.c:666-841 | a divisor that is not zero in its own type is not zero in the result type |
| Arithmetic.ResultType | lab2/eval.c:247-271 | the result type is one of the operand types, and neither operand's type ranks above it |
| Arithmetic.NegateExact | lab2/eval.c:722-794 | negating 32-bit integers is exact: the type changes when the value would not fit |
| ExpressionText.Evaluate | lab2/eval.c:1096-1124 | evaluating a text gives the value and the end of the expression written at its beginning, in a grammar over characters, and fails exactly if there is none with a value |
| ExpressionText.EvaluatesText | lab2/eval.c:938-1124 | the same from any position and for factors, terms and expressions |
| ExpressionText.SignMeans | lab2/eval.c:996-1067 | the value of two texts with a sign between them: of l - r, what added to the value of r gives the value of l, and so on |
| ExpressionText.ReadsWhatIsWritten | lab2/eval.c:938-1067 | a tree is read exactly when it is written there, with operators grouping to the right, blanks anywhere between words, and nothing behind it that continues it |
| ExpressionText.WrittenOnce | lab2/eval.c:938-1067 | so the grammar is not ambiguous |
| ExpressionText.LexName | lab2/eval.c:157-167 | an identifier token is the longest name behind the blanks |
| ExpressionText.LexLiteral | lab2/eval.c:168-191 | a literal token is the longest literal: digits, points, e and x, a sign only behind an e, and other hexadecimal letters only behind an x |
| ExpressionText.PrintParses | lab2/eval.c:938-1067 | every tree of names and literals, printed with the parentheses it needs, is read back as itself, to the end |
| ExpressionText.PrintInjective | lab2/eval.c:938-1067 | different trees print differently |
| Evaluator.FirstAndRest | lab2/eval.c:1004-1064 | an operator behind a first operand: joining it with the result of the rest agrees with parsing first and evaluating then, errors included |
| Evaluator.EvalMeans | lab2/eval.c:938-1067 | evaluating while parsing gives a value exactly when the text parses and its tree has a meaning, which is the value, and ends where the parse ends |
| Evaluator.ErrorLocated | lab2/eval.c:938-1067 | each error is what and where it says: at the reported position there is no operand, or no closing parenthesis; or just before it stands a name or literal without value, or a divisor of value zero |
| EventQueue.ServiceInOrder | lab2/eventq.c:255-269 | events are performed in time order, none before its time, and the queue stays sorted with only later events left |
| EventQueue.ServiceTwice | lab2/eventq.c:255-269 | servicing up to t1 and then up to t2 >= t1 is servicing up to t2 |
| EventQueue.ServicePlain | lab2/eventq.c:255-269 | without callbacks exactly the due events are performed, once each, in order |
| EventQueue.ServiceEffects | lab2/eventq.c:161-269 | after servicing, a bit is as the last event performed for it left it, and a variable has the value last set, or else its old one, plus what was added since |
| EventLedger.ServiceConserves | lab2/eventq.c:255-269 | when callbacks queue only for later, nothing is lost: every event queued has been performed or is pending, exactly once |
| EventLedger.ServiceLedger | lab2/eventq.c:255-269 | for any callbacks, the events performed, pending and lost by a service are those pending before and those queued meanwhile |
| EventLedger.EveryEventOnce | lab2/eventq.c:76-269 | after any calls that queue, remove, execute and service, every event ever queued is performed, removed, lost or pending, counted once; and the queue is sorted |
| EventLedger.AllDifferent | lab2/eventq.c:60-90 | as long as the identifiers have not wrapped, no two events ever queued are the same, so exactly one of the four holds |
| EventLedger.RunCalls | lab2/eventq.c:76-269 | the linked queue, driven by any calls, has the pending events of the ledger |
| EventQueue.CallbackKeepsAll | lab2/eventq.c:161-269 | a callback keeps all the events it queues exactly when it queues none at or before its own time |
| EventQueue.SameTimeLost | lab2/eventq.c:255-269 | an event that a callback queues for its own time is lost |
| EventQueue.InsertSorted | lab2/eventq.c:91-94 | the insertion point keeps the list sorted and adds just the new event |
| EventQueue.LinkNew | lab2/eventq.c:86-105 | linking a free descriptor in gives both lists without a shared descriptor |
| EventQueue.EventQ.QueueEvent | lab2/eventq.c:76-105 | queueing inserts one event with the next identifier, before the first that is not earlier; the queue stays sorted |
| EventQueue.EventQ.ServiceEvents | lab2/eventq.c:255-269 | the service loop performs and leaves what the sequence model says, also when callbacks queue |
| EventQueue.EventQ.FireFirst | lab2/eventq.c:258-267 | one turn of the loop, including events queued before and behind the running one |
| EventQueue.EventQ.ExecuteEvent | lab2/eventq.c:186-218 | the first event with the identifier is taken out and performed; a callback then loses nothing |
| EventQueue.EventQ.RemoveEvent | lab2/eventq.c:223-252 | the first event with the identifier is taken out and not performed |
| SatPredictor.CountsExact | lab2/sim-safe.c:303-500 | in every run each counter is the saturating count of the outcomes of its branches, and the counts of mispredictions are the branches whose outcome that count did not predict, and the taken branches |
| SatPredictor.PredictionSettles | lab2/sim-safe.c:460-500 | two equal outcomes in a row decide the next prediction of their counter |
| SatPredictor.Competitive | lab2/sim-safe.c:303-500 | in every run the 2-bit predictor has at most twice as many mispredictions as there are taken branches, and at most twice as many as there are others, plus 4096 |
| SatPredictor.StepBounded | lab2/sim-safe.c:460-500 | one branch keeps the two potential bounds |
| SatPredictor.TwiceAsWrong | lab2/sim-safe.c:460-500 | the factor two is attained by an alternating branch |
| SatPredictor.EachCounterWrong | lab2/sim-safe.c:303-500 | the additive 4096 is attained by one taken branch for each counter |
| SatPredictor.Simulator.Resolve | lab2/sim-safe.c:460-500 | one conditional branch updates all counts and one counter |
| SatPredictor.Simulate | lab2/sim-safe.c:303-500 | the exact counts, and both bounds, after any trace |

## Left out

- Caches without data blocks (`balloc` zero), user data, and statistics output.
- The block access function and `myrand` are arbitrary streams of latencies and numbers; the function copies a block to or from memory and does not call back into the cache.
- Latencies and times of the cache are unbounded integers; overflow of `int lat` and `tick_t` is not modelled, only the cut of BOUND_POS is.
- Cache geometries with more than 2^32 bytes of sets times blocks, which `cache_create` accepts, since tag and set then do not fit in an address.
- CacheLists.Search: the hash of a tag is modelled as the xor of its bytes modulo the bucket count; the theorems do not depend on which hash it is.
- CacheUnit.Cache.Access: what happens after the null block or past the block end is undefined in C and stops the model.
- The links of cache, page table, BTB and event queue records are indices into sequences that the methods reassign; C's pointers are not modelled further.
- CacheLaws.BusExclusive: waits longer than 2^31 - 1 cycles, which BOUND_POS cuts, are only covered as the earlier of the two replacements.
- Branch prediction statistics counters, the opcode stored in BTB entries, and speculative update order.
- BranchPredictor.Predictor.Update: the entry is refilled before the direction counters are updated; in C it is after, which no caller can see.
- Directions.PredictAll: one branch with a table of at least one counter for each history; aliasing between branches is not bounded.
- The bytes of `exo_print` and `exo_read`, gzip and program output during replay; a printed term is read back as itself.
- EioTrace.RecordAndReplay: calls that change registers other than 2 to 7, which a transaction does not hold; and exit calls, which are never replayed.
- Page table entry storage exhaustion, `mem_strcpy`, `mem_bzero` and the memory dump.
- NumberText.PrintBits: widths, padding, prefixes and precision of the format language, the upper-case digits of `%lX`, and floating-point conversions.
- NumberText.TruncatedDigit: overflow of the signed product is taken to wrap.
- Evaluator.EvalState.PeekNext: texts with characters that begin no token are excluded; there C drops one character at every peek.
- Arithmetic.ResultType: floats and doubles are reals without rounding, so conversions between them are exact here.
- Values of literals and identifiers in the evaluator are given by the environment, as are errors in them; the 512-byte token buffer is not bounded.
- Arithmetic.Computed: the overflowing quotient of the most negative integer and -1 wraps here, and is undefined in C.
- EventQueue.ServiceTwice: callbacks are what they queue, in a fixed order that does not depend on the time passed to them; they neither remove nor execute events.
- EventQueue.EventQ.QueueEvent: identifiers wrap at 2^32 and then repeat; uniqueness is not claimed. Sums of EventAddOp do not wrap.
- The event count limit, which is never reached because the count is never raised.
- Crc.Table.Crc: words are bit strings, high bit first; the 64-bit type of the table is not modelled, as every entry fits 32 bits.
- The two-level and tournament predictors of lab2/sim-safe.c, whose index widths do not match their tables.
- Command line, debugger, loader, statistics and instruction set definition.
