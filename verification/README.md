# A verified model of the malloc lab allocator and its driver

The repository holds an implicit-free-list `malloc` (`mm.c`) on a simulated heap (`memlib.c`), a driver
that replays request traces against it (`mdriver.c`), a script that checks and balances traces
(`traces/checktrace.pl`), and a K-best sampler for timings (`fcyc.c`). This project models these five
files in Dafny and proves what they promise: for every heap limit below 2 GB, for every sequence of requests
that a well-formed trace makes, and for `mm_malloc` for every value of its `size_t` parameter.

## Layout

| file | content |
|---|---|
| `Words.dfy`, `MemLib.dfy` | bytes, 32-bit little-endian words, and the memory system as a class over a byte array |
| `Blocks.dfy`, `Allocator.dfy` | block lists as values, and the allocator as functions on block lists |
| `Policy.dfy` | which block a request gets: laws that leave exactly one reply, without following the steps of `mm_malloc` |
| `Tags.dfy`, `Mm.dfy` | which bytes encode a block list, and `mm.c` as a class that writes tag words in place |
| `Traces.dfy` | traces, and what a trace does to the allocator, independent of memory |
| `Ranges.dfy`, `Checks.dfy`, `Driver.dfy` | the linked range list, what the checks rely on, and the three interpreters |
| `CheckTrace.dfy` | the trace checker and balancer, and its connection to the replayer |
| `TraceReport.dfy` | what the checker reports and prints, in terms of the lines alone |
| `Fcyc.dfy` | the sampler |

`dafny verify dfyconfig.toml` checks everything.

## How the model is built

- Addresses are offsets from `mem_start_brk`, which the C library aligns to 8 bytes. `None` is the NULL
  pointer, or `(void *)-1` where `mem_sbrk` returns it.
- `GET` and `PUT` read and write four bytes of the array. `PACK`, `GET_SIZE` and `GET_ALLOC` are bit
  operations on words whose size part is a multiple of 8; they are written with `+` and `%`.
- `size_t` is 32 bits wide (Makefile:9). The rounding in `mm_malloc` and `extend_heap` and the conversion to
  the `int` parameter of `mem_sbrk` are modelled with wrap-around. The heap limit is any number below 2^31
  (`MAX_HEAP` is an `int` expression); sums of block sizes are therefore exact.
- A block list contains the prologue as its first block. The epilogue is the word before `brk`.
- Class `Mm.Mm` carries the block list as a ghost field. Every method states the new list as a function
  of the old one, so the blocks that requests get do not depend on payload bytes or on words that an
  earlier run left behind.
- `Policy.Answer` says what a request gets: the front of the lowest free block with room, or of the tail after
  growing, cut to exactly the block size when 16 bytes or more are left; everything else stays, and NULL
  comes when neither is possible. `Malloc` and `Realloc` are proved to give this reply, and it is the only one.
- `Traces.Replay` runs a trace on block lists. A well-formed trace allocates only ids that are not live,
  reallocates and frees only live ones, and asks for sizes that are positive ints.
- Functions of C that do one thing after another are split into a few methods where the parts have
  contracts of their own (for example `MarkFree` and `Coalesce` for `mm_free`).

## Where code and comments disagree

The model follows the code. The header of `mm.c` (mm.c:2-7) and the comments on `mm_malloc` and `mm_free`
(mm.c:175, mm.c:279) describe a bump allocator that never frees. `mem_brk` is one past the last byte
(memlib.c:22 calls it the last byte). The "words" of `extend_heap` are 8 bytes.

## Properties that fail, with the exact condition

- A pointer that `mm_malloc` returns is a usable block, allocated and with room for the request and its tags,
  if and only if the request is at most 0xFFFFFFE8 bytes (`Malloc`). Above that the block size or the extension
  wraps around (`RequestArithmetic`, `RequestWraps`), and `Malloc` states which words are overwritten. An
  instance is `WrappedRequest`: right after `mm_init`, a request of 0xFFFFFFF1 bytes is answered with address 16,
  whose tags still say that the block is free, and the footer of the prologue is destroyed.
- The comparison of `mem_sbrk` on 32-bit pointers agrees with the one on numbers if and only if
  `mem_brk + incr` stays below 2^32; for every larger sum it grants an extension that does not fit
  (`SbrkComparison`).
- The overlap test of `add_range` agrees with overlapping if and only if the new range does not enclose the
  recorded one (`HitIsOverlap`; `EnclosingMissed` is an instance).
- The data check of `eval_mm_valid` compares a signed `char` with a number from 0 to 255. It reports lost
  data, although none is lost, exactly on the first realloc whose id has a low byte of 128 or more; a
  well-formed trace is accepted if and only if the heap suffices and there is no such realloc
  (`EvalMmValid`, `AcceptedIff`). `DataLostExample` is such a trace; for heap limits that a caller can compute
  from the trace, only these ids decide (`AcceptedWhenEnough`).
- The checks of `checktrace.pl` for reused ids and for freeing a freed block can never fire (`DeadChecks`).

## Model

| member | source | states |
|---|---|---|
| Words.BytesOfWord | mm.c:86-88 | splitting a word into four bytes and putting them together is the identity |
| MemLib.MemLib.constructor | memlib.c:29-40 | a fresh heap of the given size, empty |
| MemLib.MemLib.ResetBrk | memlib.c:55-58 | the break returns to the start; no byte changes |
| MemLib.MemLib.Sbrk | memlib.c:67-78 | succeeds exactly for a non-negative increment that fits, returns the old break and moves it by the increment; otherwise nothing changes |
| MemLib.SbrkComparison | memlib.c:71 | the 32-bit comparison with mem_max_addr agrees with the comparison of numbers exactly when the sum stays below 2^32, and grants every larger one |
| MemLib.MemLib.Get | mm.c:86 | the word whose four bytes lie at the address |
| MemLib.MemLib.Put | mm.c:88 | the word can be read back, and no other byte changes |
| MemLib.MemLib.Copy | mm.c:373 | the target area holds the old bytes of the source area, and no other byte changes |
| MemLib.MemLib.Fill | mdriver.c:625 | the area holds the byte, and nothing else changes |
| Allocator.RequestArithmetic | mm.c:197-219 | rounding and extension are at least what is needed exactly for requests up to 0xFFFFFFE8; then the block size is the least multiple of 8 with room for request and tags (at least 16), and the extension the least multiple of 16 that covers it and CHUNKSIZE |
| Allocator.GrowthRounds | mm.c:118-123 | the word count handed to extend_heap, rounded to even, gives exactly that extension without wrap-around |
| Allocator.RequestWraps | mm.c:201-220 | above the bound, up to 0xFFFFFFF0 the block size is 2^32 - 8 and the extension 0, up to 0xFFFFFFF8 the block size is 0, beyond that it is 8; blocks of 0 and 8 bytes get the least extension |
| Allocator.FirstFit | mm.c:236-247 | the index of a free block that is large enough with none before it, or the length when there is none |
| Allocator.FirstFitLowest | mm.c:236-247 | whenever some free block fits, one is found, and at the lowest address of all that fit |
| Allocator.SplitFacts | mm.c:258-276 | the parts tile the block; the first is allocated and has exactly the wanted size, with one free block behind it, whenever 16 bytes or more are left, and is the whole block otherwise |
| Allocator.PlaceFacts | mm.c:258-276 | placing keeps the heap well formed and inserts exactly one allocated block, at its place in address order |
| Allocator.ExtendForm | mm.c:116-135 | extending grows a free last block by the extension, or appends a free block |
| Allocator.ExtendFacts | mm.c:116-135 | extending keeps the heap well formed up to the new break and all allocated blocks |
| Allocator.MallocFacts | mm.c:180-226 | a successful request adds one new block, the front of the lowest free block with room or of the grown tail, of exactly the block size unless less than 16 bytes are left, and keeps all others; the break moves only when nothing fits; NULL leaves the list as it was |
| Allocator.MallocFails | mm.c:187-222 | NULL exactly for size 0, or when no free block fits and break plus extension exceeds the limit |
| Allocator.FreeFacts | mm.c:282-292 | freeing removes exactly the named block from the allocated ones; the heap stays well formed and as large |
| Allocator.ReallocFacts | mm.c:345-379 | success puts one new block in place of the old one, the same that mm_malloc would give with the old one still there, and keeps all other allocated blocks; NULL for a positive size changes nothing; size 0 frees |
| Allocator.FreeOrder | mm.c:282-325 | freeing blocks one by one equals releasing all of them and merging once |
| Allocator.AnyOrder | mm.c:282-325 | freeing the same blocks in another order gives the same heap |
| Allocator.FreeUndoesMalloc | mm.c:209-225 | free after malloc restores the list exactly when a free block fitted; otherwise the result is the old list with its tail grown by the extension |
| Allocator.NothingLive | mm.c:143-167 | with nothing allocated, one free block fills the heap between prologue and epilogue |
| Policy.MallocAnswer | mm.c:180-276 | the pointer is that of the lowest free block with room, or of the grown tail when there is none; the block has exactly the block size unless less than 16 bytes are left; all other allocated blocks stay; NULL exactly when neither is possible |
| Policy.MallocDetermined | mm.c:180-276 | any reply with these properties is the reply of mm_malloc |
| Policy.NullIff | mm.c:209-222 | NULL exactly when no free block has room and break plus extension exceeds the limit |
| Policy.ReallocAnswer | mm.c:345-379 | the same for mm_realloc: the new block is chosen while the old one is still allocated, which is then the only one given up |
| Policy.ReallocDetermined | mm.c:345-379 | any reply with these properties is the reply of mm_realloc |
| Policy.ReallocNullAnswer | mm.c:345-362 | mm_realloc(NULL, size) answers like mm_malloc(size) |
| Policy.ChosenIs | mm.c:209-222 | for any block size, wrapped ones included, the free block picked is the lowest with room, or the tail after the extension |
| Blocks.CoalescedUnique | mm.c:294-325 | a coalesced heap is determined by its extent and its allocated blocks |
| Blocks.MergeUnique | mm.c:294-325 | merging maximal free runs is the only way to coalesce without touching allocated blocks |
| Blocks.MergeCoalesced | mm.c:294-325 | after merging no two neighbours are free |
| Blocks.MergeLive | mm.c:294-325 | merging keeps the allocated blocks, in order |
| Blocks.TilesDisjoint | mm.c:97-105 | two blocks of a heap are the same or do not share a byte |
| Tags.TagBits | mm.c:78-95 | size and allocated bit of a packed word are those that were packed |
| Tags.WalkUnique | mm.c:97-105 | the tags in memory determine the block list |
| Tags.ImageReplace | mm.c:258-325 | writes inside the extent of some blocks leave the tags of all others and the epilogue in place |
| Tags.MergeRun | mm.c:294-325 | once the tags of the joined block are written, memory holds the merged list and every live payload is unchanged |
| Tags.PayloadWrite | mdriver.c:625 | writing into one payload touches no tag and no other payload |
| Mm.Mm.Walk | mm.c:97-105 | header and footer agree, NEXT_BLKP leads to the next block and at the end to the break, PREV_BLKP leads back |
| Mm.Mm.JoinNext | mm.c:305-309 | the tags of the block joined with its successor are written, and nothing outside |
| Mm.Mm.JoinPrev | mm.c:311-316 | the same with the predecessor, whose address is returned; on an empty block behind a footer of 0, both words before it are set to 0 and it is returned itself |
| Mm.Mm.JoinBoth | mm.c:318-323 | the same with both neighbours |
| Mm.Mm.ReadAround | mm.c:296-298 | the three reads give the allocated bits of both neighbours (the epilogue counts as allocated) and the size; for an extension of 0: a free predecessor, an allocated successor and size 0 |
| Mm.Mm.Coalesce | mm.c:294-325 | the four-case local merge equals merging all maximal free runs of the list; live payloads unchanged; after an extension of 0 it only overwrites the last footer and the epilogue with 0 |
| Mm.Mm.ExtendHeap | mm.c:116-135 | the list grows by the extension or nothing at all changes; the last block is returned; live payloads unchanged; an extension that wraps to 0 returns the break and sets the last footer and the epilogue to 0 |
| Mm.Mm.AddBlock | mm.c:129-134 | the new area becomes a free block that is merged with a free tail, whose address is returned |
| Mm.Mm.Init | mm.c:143-167 | on an empty heap with arbitrary bytes: fails exactly when the limit is too small, otherwise the heap is valid with one free block |
| Mm.Mm.FindFit | mm.c:236-247 | terminates and returns the first block that fits, or NULL |
| Mm.Mm.Place | mm.c:258-276 | the list changes as Allocator.Place says (its sizes are those of Allocator.SplitFacts) and live payloads are unchanged; for a block size of 0 or 8, which words are overwritten instead |
| Mm.Mm.PlaceTags | mm.c:258-276 | exactly the tags of the parts of the block are written, or for a block size of 0 the footer before the block is set to 1 and the block stays free |
| Mm.Mm.Malloc | mm.c:180-226 | up to 0xFFFFFFE8 bytes: valid heap again, list and pointer as the block-list allocator says (the one reply of Policy.MallocAnswer), all live payloads unchanged; above: which address is returned and which words are overwritten; on NULL no byte and no break changed; a pointer is returned to a block with room exactly for requests up to that bound |
| Mm.Mm.GrowFor | mm.c:219-224 | when nothing fits: extension and placement as on block lists, or for sizes that wrapped around, the block or break returned and the words overwritten |
| Mm.WrappedRequest | mm.c:201-224 | a request of 0xFFFFFFF1 bytes after mm_init: the address returned, and the prologue footer, block tags and epilogue that memory then holds |
| Mm.Mm.Free | mm.c:282-292 | valid heap again, list as after releasing the block and merging, payloads of all remaining live blocks unchanged |
| Mm.Mm.Realloc | mm.c:345-379 | valid heap again, list and pointer as the block-list allocator says (the one reply of Policy.ReallocAnswer); other live payloads unchanged; the first min(old capacity, size) bytes of the new payload are the old ones; on NULL for size > 0 nothing changed |
| Traces.ReplayValid | mdriver.c:598-681 | in every state a well-formed trace reaches, the heap is well formed, the live blocks are exactly those of the live ids, and each has room for its request |
| Traces.StepValid | mdriver.c:602-679 | a request keeps this; it fails only when malloc finds no room; the heap does not shrink |
| Traces.StepAnswer | mdriver.c:602-679 | a request gets the answer that heap, size and limit determine, recorded for its id; a free gives up exactly the block of its id |
| Traces.ReplayAnswer | mdriver.c:598-681 | so does request n of a trace, in the state that the requests before it have led to; the run ends exactly at a request that can get nothing |
| Traces.HeapConserved | memlib.c:55-105 | at any point the ordinary blocks add up to the heap size minus 16; between two points the heap grows by a multiple of 16 |
| Traces.EnoughHeap | mdriver.c:598-681 | every request is served, and the break stays below the initial heap plus one extension per alloc and realloc, when the limit is at least that |
| Traces.MoreHeap | mdriver.c:598-681 | with a larger limit, requests that were served get the same blocks |
| Traces.AllFreed | mm.c:294-325 | a trace that frees every id leaves exactly one free block of heap size minus 16 |
| Traces.PayloadsApart | mdriver.c:390-416 | payloads of live ids are 8-aligned, inside the heap, and pairwise disjoint |
| Traces.LiveCount | mdriver.c:713-775 | there is exactly one live block per live id besides the prologue |
| Traces.AllocTotal | mdriver.c:729 | an alloc adds its size to the sum over the live payloads |
| Traces.ReallocTotal | mdriver.c:751 | a realloc adds the difference of the sizes |
| Traces.FreeTotal | mdriver.c:767 | a free subtracts the size of the payload |
| Traces.SpaceBoundLater | mdriver.c:698-778 | requested bytes + 8 per live id + 16 never exceed the heap size, then or later |
| Traces.PointersAgree | mdriver.c:805-814 | the pointer recorded for an allocated id does not depend on what the pointer array held before the run |
| Traces.PointerIs | mdriver.c:604-667 | the pointer recorded for an id is the address that its last alloc or realloc returned, also after it is freed |
| Traces.PointerKept | mdriver.c:598-681 | an id without alloc or realloc keeps its old entry |
| Ranges.HitIsOverlap | mdriver.c:409-410 | the endpoint test agrees with overlapping exactly when the new range does not enclose the recorded one |
| Ranges.PassesIff | mdriver.c:408-416 | a new range passes the loop exactly when it is apart from, or strictly around, every recorded one |
| Ranges.EnclosingMissed | mdriver.c:409-410 | two overlapping ranges that pass |
| Ranges.RangeList.Add | mdriver.c:381-429 | which of the three complaints is raised, or that the range is put in front of the list; otherwise the list is unchanged |
| Ranges.RangeList.AnyHit | mdriver.c:408-416 | true exactly when an end of the new range lies in a recorded one |
| Ranges.RangeList.Remove | mdriver.c:434-449 | removes exactly the first entry with the address, and nothing if there is none |
| Ranges.RangeList.Unlink | mdriver.c:442 | bending one pointer takes one node out of the list |
| Ranges.RangeList.Clear | mdriver.c:454-464 | the list is empty |
| Checks.PassesChecks | mdriver.c:390-416 | a payload of the allocator passes the alignment, extent and overlap checks against all other live payloads |
| Checks.RangesApart | mdriver.c:408-416 | two entries of the range list never overlap |
| Checks.RecordedGain | mdriver.c:424-427 | adding the new range keeps one entry per live payload |
| Checks.RecordedDrop | mdriver.c:440-448 | removing keeps one entry per remaining payload |
| Checks.CharClash | mdriver.c:655-661 | the data check on intact data fails exactly for low bytes of 128 or more |
| Checks.AcceptedIff | mdriver.c:577-685 | accepted exactly when the allocator serves every request and no realloc has such an id |
| Checks.VerdictIs | mdriver.c:577-685 | which request the verdict names: the one up to which exactly all are served, with no clashing realloc before it, or the first clashing realloc, with all served up to it |
| Checks.AcceptedWhenEnough | mdriver.c:577-685 | when the limit covers one extension per alloc and realloc, a trace is accepted exactly when no realloc has such an id |
| Checks.DataLostExample | mdriver.c:655-661 | a trace of two requests that is rejected for lost data although none is lost |
| Checks.OneVerdict | mdriver.c:577-685 | trace and heap limit determine the verdict |
| Driver.Driver.CheckAlloc | mdriver.c:604-630 | fails only for lack of memory; otherwise range list, tables and payload bytes match the new state |
| Driver.Driver.CheckRealloc | mdriver.c:632-667 | lack of memory, or the data check exactly for a low byte of 128 or more, or success with everything matching |
| Driver.Driver.DataDiffers | mdriver.c:655-661 | true exactly when some byte, as a signed char, differs from the low byte of the id |
| Driver.Driver.CheckFree | mdriver.c:669-675 | range entry and block are gone, everything else matches |
| Driver.Driver.EvalMmValid | mdriver.c:577-685 | the verdict is exactly the one that trace and heap limit determine; alignment, extent and overlap checks never fire; on acceptance the range list has one entry per live id, payloads are filled, and pointers are those of the block-list run |
| Driver.Driver.EvalMmUtil | mdriver.c:698-778 | leaves through app_error exactly when the allocator runs out of heap; otherwise returns the peak of the requested bytes over the heap size, which is below 1, with the same pointers |
| Driver.Driver.EvalMmSpeed | mdriver.c:785-826 | leaves through app_error exactly when the allocator runs out of heap; otherwise the same pointers |
| Driver.Driver.EvaluateTrace | mdriver.c:291-306 | after acceptance by eval_mm_valid, neither eval_mm_util nor any run of eval_mm_speed reaches app_error, all record the same pointers for every allocated id, and the utilisation is the peak of the requested bytes over the final heap size; without acceptance there is none; in every case driver and trace can be used again |
| Driver.Driver.EvaluateTraces | mdriver.c:291-308 | evaluating one trace after another gives each the verdict and the utilisation that it alone and the heap limit determine |
| CheckTrace.Check | traces/checktrace.pl:68-155 | the loop over the lines reports what the line-by-line definition says: the first complaint, the summary, or all non-blank lines followed by one free per outstanding id (or by some of them and the complaint about the residue) |
| CheckTrace.Balance | traces/checktrace.pl:134-153 | adds the number of outstanding ids to the header and prints all saved lines, then one free for each outstanding id; if one of them is not an allocation, the output ends after frees for some of the others, with the complaint |
| CheckTrace.BalancedScan | traces/checktrace.pl:70-153 | the output is accepted with nothing outstanding, and a correct op count stays correct |
| CheckTrace.BalanceTwice | traces/checktrace.pl:121-153 | balancing the output again prints the same trace, and its summary says balanced |
| CheckTrace.FreesScan | traces/checktrace.pl:148-153 | freeing the outstanding ids in any order is accepted and empties the table |
| CheckTrace.DeadChecks | traces/checktrace.pl:96-108 | the checks for reused ids and for freeing a freed block never fire |
| CheckTrace.AcceptsWellFormed | traces/checktrace.pl:70-116 | a readable a/r/f trace is accepted exactly when it is well formed for the replayer, and what is outstanding are the live ids |
| CheckTrace.BalancedRunEmpties | traces/checktrace.pl:130-153 | a balanced trace that is replayed without running out of heap leaves one free block |
| TraceReport.ReportIs | traces/checktrace.pl:70-155 | the complaint is that of the first line that gives reason for one: a realloc or free of an id that is not outstanding, or an alloc of one whose last command was an alloc; the summary says whether no id is outstanding; the output breaks off exactly when one was recorded by something other than an alloc |
| TraceReport.OutputIs | traces/checktrace.pl:134-153 | the output is the non-blank lines, unchanged and in order, followed by frees of different outstanding ids, of all of them unless it breaks off; the header grows by their number |
| TraceReport.ScanIs | traces/checktrace.pl:70-116 | after each line the table holds exactly the outstanding ids with their last command, or the first reason for a complaint has come up |
| Fcyc.SortedFacts | fcyc.c:84-90 | insertion sorting gives an ascending rearrangement of the samples |
| Fcyc.BestFacts | fcyc.c:70-91 | the best k are ascending, and the samples are those and others that are not smaller |
| Fcyc.BestNext | fcyc.c:73-79 | how one more sample changes the best k: insert, replace the largest, or ignore |
| Fcyc.SmallestFirst | fcyc.c:168 | the first of the best is the smallest sample |
| Fcyc.Sampler.InitSampler | fcyc.c:52-64 | no samples, and room for k values |
| Fcyc.Sampler.AddSample | fcyc.c:70-91 | the array holds the best k of all samples so far |
| Fcyc.Sampler.SiftDown | fcyc.c:85-90 | the swapping loop inserts the last value into the ascending ones before it |
| Fcyc.Sampler.ConvergedIs | fcyc.c:97-102 | has_converged looks at the smallest and the k-th smallest sample |
| Fcyc.ConvergedMeans | fcyc.c:97-102 | converged exactly when at least k samples are within a factor of 1 + epsilon of the smallest |
| Fcyc.Sampler.Fcyc | fcyc.c:135-174 | stops at the first convergence or after maxsamples samples (at least one), and returns the minimum of all samples taken |

## Left out

- `main` beyond the evaluation of the traces, option parsing, result printing and the performance index: user interface and floating-point reporting.
- `read_trace` and `free_trace`: a trace is given as a sequence of requests with its two arrays.
- `eval_libc_valid` and `eval_libc_speed`: the system malloc is not part of this model.
- The storage for the heap and for range entries comes from the system malloc, which is taken to succeed; calls of `free` on range entries are not modelled.
- `mm_init` on a heap that is not empty: the interpreters call it only after `mem_reset_brk`.
- `mm_realloc(NULL, 0)`, double frees and pointers that malloc did not return: excluded by preconditions, as in C.
- MemLib.MemLib.Sbrk: the sum `mem_brk + incr` is taken as a number, which is what the 32-bit comparison computes if and only if base + brk + incr < 2^32 (`MemLib.SbrkComparison`); the heap after an extension that the wrapped comparison grants is not modelled.
- Mm.Mm.Realloc: requests above 0xFFFFFFE8 bytes are excluded, because the block that `mm_malloc` then returns is not usable (`Mm.Mm.Malloc`) and freeing the old one reads tags that are no longer there.
- Messages, `errno`, `mem_deinit`, `mem_pagesize` and the unused ALIGN macros of `mm.c`.
- Counters, cache clearing and the timers behind `fcyc`: each measurement is an arbitrary real number; `double` rounding and the overflow of `samplecount` are not modelled.
- The text form of traces in `checktrace.pl`: lines are given as command, id and size, without line numbers in complaints; the order in which `sort keys` lists the outstanding ids is left open, and the results hold for every order.
- The parameter setters of `fcyc.c`: the sampler has arbitrary parameters with k at least 1.
