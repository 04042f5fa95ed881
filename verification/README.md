# Verified models of the teaching code's hard algorithms

This project models the parts of the repository whose correctness rests on an invariant, and proves
what they promise for every input, every interleaving and every run.

- **The K&R next-fit allocator** (`free_list`, `heap_model`, `heap_runs`, `header_memory`,
  `stored_heap`, `allocator`) and its **refactored twin** (`refactored_allocator`, `lockstep`).  Block
  headers live in memory as two maps, one for each header field, by unit address.  The allocator
  classes do the pointer work of the C functions; a heap model states what that work means: an
  address-ordered ring with a marker, the live blocks, and the units the system has granted.
  The system's answers to `sbrk` are arbitrary, as long as a granted region lies above the marker, is
  unused, and keeps the total below 2^31 units (32 GiB); under that bound no 32-bit size wraps.
- **The reusable checkpoint barrier** (`checkpoint_barrier`): N threads, any number of rounds; each
  semaphore operation, load and store is a step.
- **The bounded buffer with a stop request** (`bounded_buffer`, `buffer_items`): any number of producers
  and consumers, an explicit lock, sleepers, wakes still to be sent, and spurious wakes.
- **The buffered file copy** (`buffered_copy`): one model for the single-buffer and the double-buffered
  program, with one or two slots; reads return any number of bytes they may.
- **Prime factorisation** (`number_theory`, `primes`): both programs against unique factorisation.
- **Search in a record file** (`external_search`), **the shell scanner and parser** (`shell_scanner`,
  `shell_parser`), **the buddy bitmap** (`bitmap`, `buddy_bitmap`) and **list checkpoint and restore**
  (`job_list`), whose file holds 32-bit ints with the least significant byte first.

Where the code falls short of what it is for, the model keeps the code as it is and a lemma gives the
exact condition:

- The refactored allocator computes block sizes through a signed int: its size test agrees with the
  original's on the requests below 2^31 bytes and on no others (`SizeTestAgreesBelowTwoGiB`).  Larger
  ones pass it even on the zero-size marker (`EverySizeFitsUncheckedRequests`), all but the last 15
  32-bit values, which are served as an empty request.  Over a system that grants little, each of these
  requests is refused by the original and given an address by the other (`TellApart`).
- `extBinarySearch` on an empty file compares the key with an uninitialised buffer (`SearchBoth`,
  `AgreementIsSureWithRecords`).  It compares signed keys as unsigned: on a file in signed order every
  key is answered rightly exactly when the file does not mix negative keys with others
  (`AnswersAllInSignedOrder`); on every mixed one the record at one end is never found
  (`MixedFilesHideAnEnd`).
- The interpreting loop and the whole-line grammar of the shell part ways exactly when an operator `&`
  is followed at once by `;` (`LoopMatchesGrammar`).  The loop then forgets the `&`; it also drops an
  operator `|` at the end of the line, and nothing else (`LineIsTidy`, `PrintingUndoesParsing`).
- A restored job keeps size 1, so a second checkpoint keeps its string exactly when that is empty
  (`SecondGenerationKeepsOnlyEmpty`).
- `baddrclr` masks with a 32-bit value: a bit address names the right buddy pair exactly below 4 GiB
  (`BitAddressIsPairBelow4GiB`).
- `isPrime` answers true for 1, although its comment promises primality; from 2 on it is exact.

`dafny verify dfyconfig.toml` checks the whole project.

## Model

| member | source | states |
|---|---|---|
| FreeList.NextFit | examples/memory-management/simple-malloc/simple-malloc.c:24-39 | The node served is the nearest large enough one after the roving pointer in list order; there is none exactly when every node is too small. |
| FreeList.CarveKeepsWellFormed | examples/memory-management/simple-malloc/simple-malloc.c:25-33 | Serving a request leaves one address-ordered ring through the marker in which no two blocks touch. |
| FreeList.CarveCovers | examples/memory-management/simple-malloc/simple-malloc.c:25-33 | Every unit that was free is now free or in the block handed out, never both, and no other unit becomes free. |
| FreeList.NextSearchResumes | examples/memory-management/simple-malloc/simple-malloc.c:23-34 | The next search looks first at the remainder of the node served or, after an exact fit, at the node behind it; from a remainder it takes the units next to those handed out. |
| FreeList.ReleaseKeepsWellFormed | examples/memory-management/simple-malloc/simple-malloc.c:76-87 | Putting a block back joins every touching neighbour: the list stays one ordered ring without touching blocks. |
| FreeList.ReleaseCovers | examples/memory-management/simple-malloc/simple-malloc.c:76-87 | The free units afterwards are exactly the free units before and the block's units, which were disjoint. |
| FreeList.ReleaseLeavesRoverBefore | examples/memory-management/simple-malloc/simple-malloc.c:71-87 | The roving pointer ends at the nearest lower node, and the block lies inside that node or right after it on the list. |
| FreeList.ReleaseMakesRoom | examples/memory-management/simple-malloc/simple-malloc.c:36-39 | After a fresh region went on the list, merged or not, the next lap finds a large enough block. |
| FreeList.OnlyReleasedFits | examples/memory-management/simple-malloc/simple-malloc.c:36-39 | When no block could serve the request, the one that can afterwards is the region joined with what it touches, and it ends where the region or the block behind it ends. |
| FreeList.Canonical | examples/memory-management/simple-malloc/simple-malloc.c:67-88 | Two lists of non-empty blocks without touching neighbours that cover the same units are the same list. |
| FreeList.SameUnitsSameBlocks | examples/memory-management/simple-malloc/simple-malloc.c:67-88 | The free list is determined by the set of free units: it is their decomposition into maximal runs. |
| FreeList.ReleaseUndoesCarve | examples/memory-management/simple-malloc/simple-malloc.c:25-87 | Carving a block off and putting it back restores the list of free blocks exactly. |
| HeapModel.UnitsAreTight | examples/memory-management/simple-malloc/simple-malloc.c:17 | The unit count leaves room for the request after the header and wastes less than one unit. |
| HeapModel.Sbrk | examples/memory-management/simple-malloc/simple-malloc.c:54-56 | A region is granted exactly when the system answers this request with one above the marker, disjoint from everything granted before and within 2^31 units in all; it is the region of the answer, and the grants grow by exactly its units. |
| HeapModel.AskFor | examples/memory-management/simple-malloc/simple-malloc.c:42-53 | The system is asked for the larger of 1024 units and the units needed. |
| HeapModel.GrowKeepsValid | examples/memory-management/simple-malloc/simple-malloc.c:47-61 | Adding a granted region keeps free and live blocks disjoint and tiling exactly the granted units. |
| HeapModel.FreeKeepsValid | examples/memory-management/simple-malloc/simple-malloc.c:67-88 | Freeing a live block keeps free and live blocks disjoint and tiling exactly the granted units. |
| HeapModel.TakeKeepsValid | examples/memory-management/simple-malloc/simple-malloc.c:25-34 | Handing out a block keeps free and live blocks disjoint and tiling exactly the granted units. |
| HeapModel.MallocIsSafe | examples/memory-management/simple-malloc/simple-malloc.c:12-40 | A malloc keeps the heap valid; its block has the requested size and is disjoint from every live block; on failure no block has changed. |
| HeapModel.MallocAsksOnlyWhenFull | examples/memory-management/simple-malloc/simple-malloc.c:36-38 | The system is asked exactly once when no free block is large enough and never otherwise; the malloc fails exactly when it is asked and refuses. |
| HeapModel.GrowthIsExact | examples/memory-management/simple-malloc/simple-malloc.c:36-61 | A malloc that no free block can serve asks for the larger of 1024 and n units; it succeeds if and only if the answer is usable, the grants then grow by exactly the units of the answer, and the block is the tail end of the free run around them. |
| HeapModel.FirstMalloc | examples/memory-management/simple-malloc/simple-malloc.c:12-61 | The first malloc of all gets the last n units of the region the system answers with, or fails when there is none. |
| HeapModel.ConsecutiveBlocksAreAdjacent | examples/memory-management/simple-malloc/simple-malloc.c:12-40 | Two requests in a row that one free block can serve get adjacent blocks, the second right below the first. |
| HeapModel.PayloadIsTheClients | examples/memory-management/simple-malloc/simple-malloc.c:12-40 | The payload after the header holds the requested bytes, in granted units that are neither free nor in any other live block. |
| HeapRuns.RunsStayValid | examples/memory-management/simple-malloc/simple-malloc.c:12-88 | In every run of mallocs and frees of live blocks, every heap is one ordered ring with disjoint blocks that tile the granted units. |
| HeapRuns.RunsAreHistoryIndependent | examples/memory-management/simple-malloc/simple-malloc.c:12-88 | Two runs that end with the same grants and live blocks end with the same free blocks, whatever happened on the way. |
| HeapRuns.FreeingOrderIsIrrelevant | examples/memory-management/simple-malloc/simple-malloc.c:67-88 | Freeing a set of live blocks gives the same free blocks in every order. |
| HeapRuns.FreeUndoesMalloc | examples/memory-management/simple-malloc/simple-malloc.c:12-88 | A malloc served from the list and then freed restores the free blocks, the live blocks and the grants exactly. |
| HeapRuns.FreedIsServedAgain | examples/memory-management/simple-malloc/simple-malloc.c:12-88 | The first malloc of all, its free, and the same malloc again hand out the same block, whose address is stated. |
| HeapRuns.RunsLeaveMaximalRuns | examples/memory-management/simple-malloc/simple-malloc.c:12-88 | After any run the free list behind the marker is the one decomposition into maximal runs of the granted units that no live block holds; of everything granted, once all has been freed. |
| HeaderMemory.StopsOnlyBefore | examples/memory-management/simple-malloc/simple-malloc.c:72-74 | The exit tests of the insertion search hold at exactly one list node, the one before the block in circular address order. |
| HeaderMemory.ReleaseThreads | examples/memory-management/simple-malloc/simple-malloc.c:76-87 | The header writes of a free, done at that node, thread the list with the block put back and its neighbours joined. |
| HeaderMemory.CarveThreads | examples/memory-management/simple-malloc/simple-malloc.c:25-33 | The header writes of a malloc thread the carved list and store the size of the block handed out. |
| StoredHeap.SeekStep | examples/memory-management/simple-malloc/simple-malloc.c:72-74 | From any node less than a lap of the insertion search is left, and it stops at the node before the block or comes one node closer. |
| StoredHeap.LapStep | examples/memory-management/simple-malloc/simple-malloc.c:24-38 | A turn of the search finds the next fit, or ends a lap in which nothing fits, or goes one node on. |
| StoredHeap.StorageIsDetermined | examples/memory-management/simple-malloc/simple-malloc.c:6-7 | The roving pointer, the headers on the list and the sizes of the live blocks are determined by the heap they store. |
| StoredHeap.SizesFit | examples/memory-management/simple-malloc/simple-malloc.h:14-20 | Every size in a header stays below 2^31, so the unsigned size field never wraps. |
| SimpleMalloc.Allocator.Malloc | examples/memory-management/simple-malloc/simple-malloc.c:12-40 | The pointer loop ends, and leaves and returns what the heap model's malloc says, from any valid heap including the uninitialised one. |
| SimpleMalloc.Allocator.HandOut | examples/memory-management/simple-malloc/simple-malloc.c:26-34 | The branch that has found a block stores the carved heap and yields the block's address. |
| SimpleMalloc.Allocator.MoreCore | examples/memory-management/simple-malloc/simple-malloc.c:47-61 | At least 1024 units are asked for; a granted region is on the list and the roving pointer returned, a refusal changes nothing. |
| SimpleMalloc.Allocator.Free | examples/memory-management/simple-malloc/simple-malloc.c:67-88 | The pointer work ends and stores the heap with the block on the list and no longer live. |
| RefactoredMalloc.HugeRequests | examples/memory-management/simple-malloc-refactored/simple-malloc.c:136-139 | What the signed unit count is for every request from 2^31 bytes up. |
| RefactoredMalloc.UnitsAgreeBelowTwoGiB | examples/memory-management/simple-malloc-refactored/simple-malloc.c:136-139 | The refactored unit count equals the original's if and only if the request is below 2^31 bytes. |
| RefactoredMalloc.SizeTestAgreesBelowTwoGiB | examples/memory-management/simple-malloc-refactored/simple-malloc.c:147-150 | The size test judges every block size as the original does if and only if the request is below 2^31 bytes. |
| RefactoredMalloc.EverySizeFitsUncheckedRequests | examples/memory-management/simple-malloc-refactored/simple-malloc.c:147-150 | Blocks of every size, the zero-size marker included, pass the size test if and only if the request is at least 2^31 bytes and not one of the last 15 values. |
| RefactoredMalloc.SizeTestIsExact | examples/memory-management/simple-malloc-refactored/simple-malloc.c:147-150 | On a valid heap the signed size test decides as the unsigned one. |
| RefactoredMalloc.Allocator.Malloc | examples/memory-management/simple-malloc-refactored/simple-malloc.c:22-62 | Every 32-bit request ends. Below 2^31 bytes it leaves and returns what the heap model says; the last 15 values are served as an empty request; any other yields, without asking the system, a header at or behind the end of the first node after the roving pointer, and that node then claims the units up to it. |
| RefactoredMalloc.OverrunIs | examples/memory-management/simple-malloc-refactored/simple-malloc.c:136-158 | By how many units that header lies behind the node, and which size the node then has, as a function of the request. |
| RefactoredMalloc.Allocator.Free | examples/memory-management/simple-malloc-refactored/simple-malloc.c:85-110 | Stores the heap with the block on the list and no longer live. |
| RefactoredMalloc.Allocator.FindAvailableInsertionPoint | examples/memory-management/simple-malloc-refactored/simple-malloc.c:177-188 | Ends at the list node before the block in address order. |
| RefactoredMalloc.Allocator.GetMoreMemoryFromOs | examples/memory-management/simple-malloc-refactored/simple-malloc.c:64-83 | A granted region is on the list and the list head returned, a refusal changes nothing. |
| RefactoredMalloc.Allocator.FormatMemoryAndAddToFreeList | examples/memory-management/simple-malloc-refactored/simple-malloc.c:170-175 | Stores the heap with the raw region on the list as one block. |
| RefactoredMalloc.Allocator.AllocateBlock | examples/memory-management/simple-malloc-refactored/simple-malloc.c:152-158 | The rest of the block and the part split off tile the old block, the part at its end, and no other header changes; with a negative count the block runs on to a header behind its old end. |
| RefactoredMalloc.Allocator.InitializeList | examples/memory-management/simple-malloc-refactored/simple-malloc.c:141-145 | The marker linked to itself stores the empty heap. |
| Lockstep.ServeBoth | examples/memory-management/simple-malloc-refactored/simple-malloc.c:22-110 | From any two states that agree, on every sequence of requests below 2^31 bytes and frees of held payloads, the original and the refactored allocator both return, request by request, what the heap model serves, leave the heap and the held payloads it leaves, and end with the same roving pointer and headers. |
| Lockstep.OneResultEach | examples/memory-management/simple-malloc-refactored/simple-malloc.c:22-110 | Every malloc of a sequence of requests records one result behind the earlier ones, and nothing else does. |
| Lockstep.FreeTakesEffect | examples/memory-management/simple-malloc-refactored/simple-malloc.c:22-110 | A malloc the list can serve, freed at once, leaves the client with what it held and the heap with the free blocks, live blocks and grants it had. |
| Lockstep.TellApart | examples/memory-management/simple-malloc-refactored/simple-malloc.c:22-62 | From 2^31 bytes on the bound is exact: there is one system over which, for every such 32-bit request, a fresh original allocator returns NULL, as the heap model does, and a fresh refactored one the stated address. |
| CheckpointBarrier.StepKeepsInv | examples/synchronization-part1/checkpoint.c:112-138 | Every step of every thread keeps the barrier's invariant. |
| CheckpointBarrier.SavedOncePerRound | examples/synchronization-part1/checkpoint.c:119-128 | In every run of N threads the k-th savestate comes when all threads are in round k and none has left it, and no round is completed unsaved. |
| CheckpointBarrier.RoundsDoNotOverlap | examples/synchronization-part1/checkpoint.c:112-138 | No thread completes a round, so none begins the next, before every thread has incremented in it. |
| CheckpointBarrier.NoLostUpdate | examples/synchronization-part1/checkpoint.c:114-128 | With loads and stores split, at most one update of the counter is ever part-way through; the counter stays in 0..N and counts the threads not between their two updates. |
| CheckpointBarrier.NoDeadlock | examples/synchronization-part1/checkpoint.c:112-138 | In every reachable state some thread can take a step that is not a turn of a spin loop. |
| CheckpointBarrier.RoundsComplete | examples/synchronization-part1/checkpoint.c:112-138 | In every run 18 n (m + 1) steps that are not turns of a spin loop take every one of the n threads through at least m rounds, each of them saved. |
| CheckpointBarrier.FairRunsCompleteRounds | examples/synchronization-part1/checkpoint.c:112-138 | If every thread gets a turn among any w steps unless a semaphore blocks it, then within 18 n (m + 1) w steps, turns of spin loops included, every thread has completed m rounds. |
| BoundedBuffer.StepKeepsInv | examples/ms-windows/synchronization-part2/producers-consumers.c:32-148 | Every step anyone can take, spurious wakes included, keeps the invariant. |
| BoundedBuffer.EnqueueIsFifo | examples/ms-windows/synchronization-part2/producers-consumers.c:58-62 | Inserting puts the item behind the queue in the circular buffer. |
| BoundedBuffer.DequeueIsFifo | examples/ms-windows/synchronization-part2/producers-consumers.c:98-109 | Removing takes the item in front of the queue and leaves the rest in order. |
| BoundedBuffer.StepsRefineAQueue | examples/ms-windows/synchronization-part2/producers-consumers.c:32-126 | Each step leaves the queue alone, puts one item behind it before any stop, or takes the item in front. |
| BoundedBuffer.RunsAreFifo | examples/ms-windows/synchronization-part2/producers-consumers.c:32-126 | In every run the consumed items are a prefix of the enqueued ones, the rest is in the buffer, and the 32-bit totals differ by the queue size, at most 10. |
| BoundedBuffer.NothingEnqueuedAfterStop | examples/ms-windows/synchronization-part2/producers-consumers.c:52-62 | Once the stop is requested nothing more is enqueued and the request stands. |
| BoundedBuffer.TotalsAgreeAtTheEnd | examples/ms-windows/synchronization-part2/producers-consumers.c:150-155 | Once all threads have exited everything enqueued was consumed and the two totals are equal. |
| BoundedBuffer.RunsLoseNoWakeup | examples/ms-windows/synchronization-part2/producers-consumers.c:46-148 | With items to take not all consumers sleep, with room left not all producers do, unless a wake is on its way; after the stop sequence nobody sleeps. |
| BoundedBuffer.NoDeadlock | examples/ms-windows/synchronization-part2/producers-consumers.c:32-152 | Until all threads have exited some thread can move without a spurious wake and without the key. |
| BoundedBuffer.EveryStepDrains | examples/ms-windows/synchronization-part2/producers-consumers.c:143-152 | From the stop request on every step, those of the main thread and spurious wakes included, lowers a bound on the steps left. |
| BoundedBuffer.StoppedRunsEnd | examples/ms-windows/synchronization-part2/producers-consumers.c:143-152 | From the stop request on every run is bounded, and where nobody can move all threads have exited. |
| BoundedBuffer.ItemsFlow | examples/ms-windows/synchronization-part2/producers-consumers.c:32-152 | A run of 17 m + 80 + 11 P + 10 C steps, and three more for each spurious wake in it, has handed at least m items from the producers to the consumers. |
| BufferItems.ItemsAreCounted | examples/ms-windows/synchronization-part2/producers-consumers.c:42-62 | In every run the items enqueued, together with those producers have produced and not inserted, are the first k items as a multiset, k being their number: 1, 2, ..., k, each once, below 2^31, and signed 32-bit values from there on. |
| BufferItems.OneProducerCounts | examples/ms-windows/synchronization-part2/producers-consumers.c:42-104 | With one producer the i-th item the consumers take is i, as a signed 32-bit value. |
| BufferedCopy.StepKeepsInv | examples/synchronization-part1/threads-dbl-buf.c:92-128 | Every step of either thread keeps the invariant, with one buffer or two. |
| BufferedCopy.CopyIsSafe | examples/synchronization-part1/threads-dbl-buf.c:59-128 | In every interleaving the threads never share a buffer, the reader is at most as many blocks ahead as there are buffers, and the output is a prefix of the input with the rest in order behind it. |
| BufferedCopy.EveryStepProgresses | examples/synchronization-part1/threads-dbl-buf.c:92-128 | Every step of either thread lowers a bound on the steps left. |
| BufferedCopy.StuckIsDone | examples/synchronization-part1/threads-dbl-buf.c:92-128 | The only stuck states have both threads exited and the output equal to the input. |
| BufferedCopy.RunsEndWithACopy | examples/synchronization-part1/threads-sem-cp.c:78-120 | Every run ends within a bound linear in the input, and a run that has ended has copied all of it. |
| BufferedCopy.BothProtocolsAgree | examples/synchronization-part1/threads-sem-cp.c:49-120 | The single-buffer and the double-buffered program produce the same file, however each is interleaved and chunked. |
| NumberTheory.FactorsAreAFactorisation | cs253-examples/C-examples/C++/primes/Primes.java:43-47 | The canonical factorisation is a nondecreasing list of primes with product n. |
| NumberTheory.FactorisationIsUnique | cs253-examples/C-examples/C++/primes/Primes.java:43-47 | Any nondecreasing list of primes with product n is the canonical factorisation. |
| NumberTheory.Euclid | cs253-examples/C-examples/C++/primes/Primes.java:43-47 | A prime that divides a product divides a factor, which uniqueness rests on. |
| Primes.RoughIsPrime | cs253-examples/C-examples/C++/primes/Primes.java:53-72 | What has no divisor up to the rounded-up square root of n, and is at most n, is prime. |
| Primes.IsPrime | cs253-examples/C-examples/C++/primes/Primes.java:18-41 | The answer is exact from 2 on, and true for 1. |
| Primes.DivideAll | cs253-examples/C-examples/C++/primes/Primes.java:61-67 | Dividing a candidate out takes off the next factors of the canonical list, prints them, and leaves a number it does not divide. |
| Primes.PrimeFactorization | cs253-examples/C-examples/C++/primes/Primes.java:48-74 | Prints the canonical factorisation, and 1 for 1. |
| Primes.FasterPrimeFactorization | cs253-examples/C-examples/C++/primes/Primes.java:79-119 | Prints the canonical factorisation, and 1 for 1. |
| Primes.FactorBoth | cs253-examples/C-examples/C++/primes/Primes.java:48-119 | The two programs print the same for every n from 1 on: the canonical factorisation. |
| Primes.DecimalIsRead | cs253-examples/C-examples/C++/primes/Primes.java:63-72 | A number is printed in digits without a leading zero, and reading them from the left gives the number back. |
| Primes.PrintedIsRead | cs253-examples/C-examples/C++/primes/Primes.java:48-119 | Splitting what is printed for n at " * " and reading each part gives the prime factors of n in order; for 1 the print is "1". |
| ExternalSearch.AnswerIsUnique | cs253-examples/C-examples/file-io/disk_search/ExternalSearch.h:10-19 | In a file with strictly increasing keys each key has one answer. |
| ExternalSearch.SignedOrderIsSearchOrder | cs253-examples/C-examples/file-io/disk_search/ExternalSearch.c:32-38 | A file whose signed keys strictly increase is in order for the unsigned comparisons of the search if and only if it does not mix negative keys with others. |
| ExternalSearch.KeysAreUnsigned | cs253-examples/C-examples/file-io/disk_search/ExternalSearch.c:32-35 | A signed key is compared as it is or, when negative, 2^64 higher. |
| ExternalSearch.ExtBinarySearch | cs253-examples/C-examples/file-io/disk_search/ExternalSearch.c:6-42 | On a non-empty sorted file, repeated keys allowed, the answer is a record under the key, or none when there is none, although the window starts one too wide; on an empty file it is decided by the uninitialised buffer; on any file it is what the recursive form of the search says. |
| ExternalSearch.ExtLinearSearch | cs253-examples/C-examples/file-io/disk_search/ExternalSearch.c:46-67 | On any file the answer is the first record under the key, or none when there is none. |
| ExternalSearch.SearchBoth | cs253-examples/C-examples/file-io/disk_search/ExternalSearch.c:6-67 | On a sorted file with a record in it the two searches agree on whether the key is there and, when no key repeats, on the record; on an empty one they agree exactly when the uninitialised buffer does not hold the key. |
| ExternalSearch.AgreementIsSureWithRecords | cs253-examples/C-examples/file-io/disk_search/ExternalSearch.c:6-67 | On increasing keys the two searches agree for every content of the uninitialised buffer if and only if the file has a record. |
| ExternalSearch.SearchSigned | cs253-examples/C-examples/file-io/disk_search/ExternalSearch.c:6-67 | On a non-empty file in strict signed order whose keys are all non-negative, or all negative, the two searches give the same record for every key. |
| ExternalSearch.FoundInWindow | cs253-examples/C-examples/file-io/disk_search/ExternalSearch.c:21-39 | From any window of any file, sorted or not, a record the search returns lies in the window under the key: a read past the end, which leaves the last record in the buffer, never yields one. |
| ExternalSearch.AnswersAllIfIncreasing | cs253-examples/C-examples/file-io/disk_search/ExternalSearch.c:6-42 | On a non-empty file in which no key repeats, binary search answers every key rightly if and only if the keys increase, as unsigned numbers. |
| ExternalSearch.RepeatsCanHideDisorder | cs253-examples/C-examples/file-io/disk_search/ExternalSearch.c:6-42 | A file that is out of order, with a repeated key, on which every key is still answered rightly. |
| ExternalSearch.AnswersAllInSignedOrder | cs253-examples/C-examples/file-io/disk_search/ExternalSearch.c:6-42 | On a non-empty file in strict signed order, binary search answers every key rightly if and only if the file does not mix negative keys with others. |
| ExternalSearch.MixedFilesHideAnEnd | cs253-examples/C-examples/file-io/disk_search/ExternalSearch.c:6-42 | On every file in signed order that mixes them, the search returns NULL for the key of the last record when the middle one is negative, and otherwise for that of the first. |
| Tokens.SplitUndoesLayout | buff/classes/452/pub/hw3/Scanner.c:34-67 | Tokens laid out with any spaces and tabs between, before and after them are split into the same tokens. |
| Tokens.SplitLosesNothing | buff/classes/452/pub/hw3/Scanner.c:34-67 | Every line is its tokens, non-empty and without a space or tab, laid out with spaces and tabs: the tokens are its maximal runs of other characters. |
| ShellScanner.Scanner.NextToken | buff/classes/452/pub/hw3/Scanner.c:47-67 | Moves to the next of the remaining tokens, which is the first one when none was current, and returns it, or none at the end. |
| ShellScanner.Scanner.Current | buff/classes/452/pub/hw3/Scanner.c:69-76 | Returns the first remaining token without using it up. |
| ShellScanner.Scanner.Compare | buff/classes/452/pub/hw3/Scanner.c:78-86 | Tells whether the first remaining token is the given one, without using it up. |
| ShellScanner.Scanner.Eat | buff/classes/452/pub/hw3/Scanner.c:88-93 | Uses up the first remaining token exactly when it is the given one. |
| ShellParser.ReadWords | buff/classes/452/pub/hw3/Parser.c:43-53 | Reads the words of the token-list grammar from the scanner and leaves the same rest. |
| ShellParser.ReadPipeline | buff/classes/452/pub/hw3/Parser.c:65-74 | Reads the pipeline of the token-list grammar from the scanner and leaves the same rest. |
| ShellParser.ReadSequence | buff/classes/452/pub/hw3/Parser.c:76-91 | Reads the whole-line sequence of the token-list grammar from the scanner and leaves the same rest. |
| ShellParser.ReadPipelineAsSequence | buff/classes/452/pub/hw3/Parser.c:93-104 | Reads one pipeline with its operators from the scanner and leaves the same rest. |
| ShellParser.Interpret | buff/classes/452/pub/hw3/Parser.c:111-121 | The loop ends, and hands on the trees of the line's tokens, in order. |
| ShellGrammar.SequenceConsumesAll | buff/classes/452/pub/hw3/Parser.c:76-91 | The whole-line grammar uses up every token of any line. |
| ShellGrammar.LineKeepsPlain | buff/classes/452/pub/hw3/Parser.c:33-121 | On any line the words of the trees are, leaving out those that look like operators, the tokens of the line that do not, in order. |
| ShellGrammar.LineIsTidy | buff/classes/452/pub/hw3/Parser.c:33-121 | On any line the trees print as the tokens of the line, words and operators in order, without the operator ampersands that a semicolon follows at once and without an operator pipe sign that ends the line. |
| ShellGrammar.PrintingUndoesParsing | buff/classes/452/pub/hw3/Parser.c:33-121 | The loop keeps every token of a line if and only if no operator ampersand is followed at once by a semicolon and no operator pipe sign ends the line. |
| ShellGrammar.LoopMatchesGrammar | buff/classes/452/pub/hw3/Parser.c:76-121 | The loop hands on the flattened whole-line tree if and only if no operator ampersand is followed at once by a semicolon. |
| ShellGrammar.ClashExample | buff/classes/452/pub/hw3/Parser.c:82-102 | A line on which the two differ. |
| ShellGrammar.LineRoundTrip | buff/classes/452/pub/hw3/Parser.c:33-104 | Parsing the tokens of a good line, printed with "|", "&" and ";", gives the same trees back. |
| ShellGrammar.PipeSign | buff/classes/452/pub/hw3/Parser.c:49-72 | Words, "|" and words are one pipeline of two commands. |
| ShellGrammar.AmpersandAndSemicolon | buff/classes/452/pub/hw3/Parser.c:93-104 | Words, "&" and words are a background pipeline and another; with ";" the first is a foreground pipeline. |
| ShellGrammar.GoodLinesAgree | buff/classes/452/pub/hw3/Parser.c:76-121 | On good lines the flattened whole-line tree is the line, as is what the loop hands on. |
| ShellGrammar.InterpretingUndoesPrinting | buff/classes/452/pub/hw3/Parser.c:111-121 | Scanning and parsing a good line of non-empty words without blanks, printed with any spaces and tabs between its tokens, gives the same trees back. |
| Bitmaps.OneBit | buff/classes/452/pub/hw2/utils.h:17-20 | Setting, clearing or inverting a bit of a byte changes that bit and no other, as testing sees it. |
| Bitmaps.Bitmap.constructor | buff/classes/452/pub/hw2/bm.c:18-27 | A new bitmap has no bit set, in as few bytes of eight bits as hold it. |
| Bitmaps.Bitmap.Set | buff/classes/452/pub/hw2/bm.c:35-37 | In range exactly that bit is added to the set bits, in the byte of its index divided by eight; out of range the process ends and nothing changes. |
| Bitmaps.Bitmap.Clear | buff/classes/452/pub/hw2/bm.c:39-41 | In range exactly that bit is removed from the set bits, in the byte of its index divided by eight; out of range the process ends and nothing changes. |
| Bitmaps.Bitmap.Test | buff/classes/452/pub/hw2/bm.c:43-45 | In range tells whether the bit is set; out of range the process ends. |
| Bits.AndMask | buff/classes/452/pub/hw2/bbm.c:45-48 | A mask with all bits but one keeps the low bits with that one cleared. |
| BuddyAddress.BuddiesOfAPair | buff/classes/452/pub/hw2/bbm.c:40-58 | Below 4 GiB setting, clearing and inverting the bit give the upper, the lower and the other buddy of the same pair, and testing tells which one an address is in. |
| BuddyAddress.InvertIsAnInvolution | buff/classes/452/pub/hw2/bbm.c:50-53 | The other buddy's other buddy is the block itself, which is not its own buddy; both lie in one pair, at the same place in the block. |
| BuddyAddress.BitAddressIs | buff/classes/452/pub/hw2/bbm.c:12-16 | The bit of an offset is the pair of its low 32 bits. |
| BuddyAddress.BitAddressIsPairBelow4GiB | buff/classes/452/pub/hw2/bbm.c:12-16 | The bit of an offset is its own pair if and only if the offset is below 4 GiB. |
| BuddyAddress.SharedBitIsSharedPair | buff/classes/452/pub/hw2/bbm.c:12-16 | Two offsets of any size lie in the same pair if and only if they share a bit and agree from bit 32 on; buddies always share. |
| BuddyAddress.PairIsBitAndRest | buff/classes/452/pub/hw2/bbm.c:12-16 | The bit of an offset is its pair modulo 2^(31-e), and the rest of the pair is the offset from bit 32 on. |
| BuddyAddress.MapSizeIsExact | buff/classes/452/pub/hw2/bbm.c:5-16 | Every offset of an arena of any size has its bit in the map; the last bit of the map is that of some offset if and only if the arena is at most 4 GiB. |
| BuddyBitmap.SetPair | buff/classes/452/pub/hw2/bbm.c:26-28 | Adds the bit of the address to the set bits, or ends the process when the map has no such bit. |
| BuddyBitmap.ClearPair | buff/classes/452/pub/hw2/bbm.c:30-32 | Removes the bit of the address from the set bits, or ends the process when the map has no such bit. |
| BuddyBitmap.Replay | buff/classes/452/pub/hw2/bbm.c:18-36 | Over any run of updates inside an arena of at most 4 GiB no range check fails and the bytes stand for exactly the set of marked pairs. |
| JobEncoding.IntRoundTrip | cs253-examples/C-examples/file-io/checkpoint/Job.c:52-53 | Reading back the four bytes written for an int gives the int. |
| JobEncoding.BodyFromLast | cs253-examples/C-examples/file-io/checkpoint/List.c:152-157 | The file written from the tail to the head starts with the last job. |
| JobEncoding.FileLayout | cs253-examples/C-examples/file-io/checkpoint/List.c:148-157 | Which byte is where: the number of jobs, then a record for each job from the last to the first, each with id, size and that many bytes of the buffer, ints in four bytes with the least significant first. |
| JobEncoding.FirstGenerationKeepsInfo | cs253-examples/C-examples/file-io/checkpoint/Job.c:88-100 | One checkpoint and restore keeps the id and the terminated string of every created job. |
| JobEncoding.SecondGenerationKeepsOnlyEmpty | cs253-examples/C-examples/file-io/checkpoint/Job.c:88-100 | A second checkpoint and restore keeps the buffer, or even its terminator, if and only if the string is empty. |
| JobList.RestoreJob | cs253-examples/C-examples/file-io/checkpoint/Job.c:88-100 | Reads a written job back, leaves the rest of the stream, and leaves the size at 1. |
| JobList.RestoreNode | cs253-examples/C-examples/file-io/checkpoint/Node.c:63-71 | Reads a written job back into a new node and leaves the rest of the stream. |
| JobList.List.AddAtFront | cs253-examples/C-examples/file-io/checkpoint/List.c:46-60 | Keeps head, tail, size and the mirrored next and prev links, with the node in front; without a node nothing changes. |
| JobList.CheckpointList | cs253-examples/C-examples/file-io/checkpoint/List.c:129-160 | Writes the size and all jobs from the tail to the head; succeeds without a file for no list or an empty one; fails without a name or an open file. |
| JobList.RestoreList | cs253-examples/C-examples/file-io/checkpoint/List.c:173-207 | Rebuilds a well-formed list of the written jobs in their order; there is none for an empty list, without a file name, or when the file cannot be opened. |
| JobList.SaveAndRestore | cs253-examples/C-examples/file-io/checkpoint/List.c:129-207 | Checkpoint then restore of a non-empty list rebuilds a well-formed list of the same size with the same ids and info bytes in the same order. |

## Left out

- RefactoredMalloc.Allocator.Malloc: for an unchecked request the returned address, the sizes written, the roving pointer and the grants are stated, not what later calls make of such a heap.
- SimpleMalloc.Allocator.Free: requires a block that may be put back, as the C code does of its callers; freeing anything else is not modelled, nor are payload bytes and the stale pointer field in a live block's header.
- HeapModel.Sbrk: the system's policy and a grant beyond 2^31 units in total, where size fields could wrap, are not modelled.
- Primes.DivideAll, the two HandOut methods and JobList.RestoreOne are branches or loop bodies that the sources have inline.
- JobList.RestoreList: stated for files that CheckpointList writes, as its comment demands; short reads and malloc failure are not modelled.
- ExternalSearch.ExtBinarySearch: partial trailing records and failing seeks are not modelled; which of several records under one key it finds is not stated.
- checkpoint.c: signals and alarms; every thread simply runs the handler body again and again, and nested signals are not modelled.
- producers-consumers.c: the critical sections' data updates are one step each, since the lock is held; sleeping, printing and thread creation are left out.
- threads-dbl-buf.c and threads-sem-cp.c: write errors, short writes and read errors; a read returns at least one byte before the end of the file; the buffer size is at least 1, though both programs accept 0 and then copy nothing.
- Primes.java: floating-point square roots are replaced by the exact integer one, and long and int do not overflow.
- Parser.c: freeing the trees, executing commands and error positions.
- bm.c and bbm.c: printing, deletion and allocation failure; utils.c is not part of this model, its bit and rounding functions are taken by their names.
- The copying, printing and unfinished members of List.c, and the demos of single system calls.
