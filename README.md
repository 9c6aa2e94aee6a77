# Systems-lab core, modelled and proved in Dafny

This project models the core of three C programs from a computer-systems lab repository.

- **The allocator (malloclab/mm.c).** It keeps 14 segregated free lists over one heap, which grows only at its end. Each block has a header word packing its size, an allocated bit and a previous-block-allocated bit. Free blocks also carry two list-link words and a footer. Lists below 960 bytes are searched first-fit, larger ones best-fit. `place` splits a block when at least 16 bytes remain, and `coalesce` merges with free neighbours by boundary tags.
- **The shell (tshlab/tsh.c).** The model covers `parseline` (tokens, quotes, `<`/`>` redirections, a trailing `&`, builtin names) and the 16-slot job table with its global `nextjid`.
- **The proxy (proxylab/cache.c, cache.h, proxy.c).** The model covers the LRU web-object cache, a doubly linked list with a byte budget, and the proxy's request handling. That handling is made up of the request-line check, `parse_uri`, the header filter, request composition and the relay of the response into the cache.

## How the model is built

The imperative code stays imperative.

- `MmHeap.Allocator` is a class. Its `mem` field is the sequence of 32-bit heap words that `mem_sbrk` has handed out. Its methods write headers, footers, links and list slots word by word, as the C code does.
- Each allocator method is proved against a ghost `View`: the blocks by payload offset, the heap end, the epilogue's prev-allocated bit and the 14 lists. `MmRep.Rep(mem, view)` says that the words hold that view.
- The operations on views are ghost functions: `Push`, `Unlist`, `PlaceView`, `CoalesceView`, `FreeView`, `ExtendView`, `MallocView`.
- `MmView.WF` is the set of invariants mm_checkheap checks, stated as predicates:
  - the blocks tile the heap;
  - each prev-allocated bit equals the allocated bit of the block before;
  - no two neighbouring blocks are free;
  - the lists hold exactly the free blocks, each once and in the list of its size range.
- `ShellJobs.JobTable` keeps the job slots in an `array<Job>` with a mutable `nextjid`. `ShellParse.ParseLine` is the scanning loop, proved equal to the function `ShellParse.Parse`.
- `ProxyCache.Cache` and `ProxyCache.Block` are linked objects with `next`/`prev`/`head` fields. Each list method is specified against the ghost sequence of entries the list holds, and the eviction policy against pure functions on that sequence.
- The pure parts are functions with lemmas about them: header packing, bucket choice, size rounding, `parse_uri`, the request-line check and request composition.

Inputs that come from outside the program become parameters:

- `mem_sbrk` is a heap of fixed capacity that grows by zeroed words.
- `time(NULL)` is a `now` argument.
- The client's header lines and the client's request line are arguments.
- The server's response chunks and the per-chunk results of writing to the client are arguments.
- Whether the request reached the server, whether the cached reply reached the client, and whether a read failed are boolean arguments.

## Model

| member | source | states |
|---|---|---|
| MmWord.PackFields | malloclab/mm.c:86-125 | GET_SIZE, GET_ALLOC and GET_PREV_ALLOC read back the size, the allocated bit and the prev-allocated bit that PACK put in a header |
| MmWord.PackInjective | malloclab/mm.c:86 | a header word determines its size and both status bits |
| MmWord.PrevBitFields | malloclab/mm.c:372 | `|= 0x2` and `&= ~0x2` on a header change only its prev-allocated field |
| MmWord.Mod8 | malloclab/mm.c:55-89 | sums and differences of 8-aligned sizes stay 8-aligned |
| MmLayout.SegIndexIsBucket | malloclab/mm.c:513-547 | get_seg_listp's if-chain picks the same list as the range definition Bucket |
| MmLayout.BucketSpec | malloclab/mm.c:66-80 | every size lies in the range [SEG_LOW[i], SEG_LOW[i+1]) of exactly one list i, the last list unbounded |
| MmLayout.BucketFromSpec | malloclab/mm.c:513-547 | the list index found from list k on is the one whose range holds the size |
| MmLayout.BucketMonotone | malloclab/mm.c:513-547 | a larger size never goes to a smaller list |
| MmLayout.AdjustSizeSpec | malloclab/mm.c:238-241 | for size > 0 the adjusted size is 8-aligned, at least 16, leaves size bytes after the header, and is the least such size |
| MmLayout.AdjustSizeAgrees | malloclab/mm.c:241 | below the 64-bit wrap the size_t computation equals the unbounded one |
| MmLayout.AdjustSizeAsWrittenWraps | malloclab/mm.c:241 | a request of 2^64 - 5 bytes rounds to a block of size 0 |
| MmLayout.ExtendBytes | malloclab/mm.c:201-202 | extend_heap's size is 8-aligned, covers the words asked for, and exceeds them by less than a double word unless it is the 8-byte minimum |
| MmLayout.EvenWords | malloclab/mm.c:201 | rounding a word count up to an even count gives a whole number of double words |
| MmLayout.ExtendWordsFits | malloclab/mm.c:250-251 | the growth malloc asks for is exactly MAX(asize, CHUNKSIZE) bytes, enough for the request |
| MmView.Order | malloclab/mm.c:662-675 | of two blocks of the heap the earlier one ends at or before the later one starts |
| MmView.Inside | malloclab/mm.c:662-675 | no block starts inside another |
| MmView.Push | malloclab/mm.c:557-577 | add_free_block changes only the lists, never a block or the heap end |
| MmView.Unlist | malloclab/mm.c:582-602 | remove_free_block changes only the lists, never a block or the heap end |
| MmView.UnlistPush | malloclab/mm.c:557-602 | add_free_block then remove_free_block of a block not listed restores every list exactly |
| MmView.RemovePushed | malloclab/mm.c:557-602 | removing the block just pushed on a list gives the list back |
| MmView.RemoveAbsent | malloclab/mm.c:582-602 | removing a block that is not in a list leaves the list unchanged |
| MmView.PushTop | malloclab/mm.c:557-577 | after add_free_block the block heads the list of its size |
| MmView.Prev | malloclab/mm.c:122 | PREV_BLKP names a block of the heap that ends exactly where the given block starts |
| MmView.PrevUnique | malloclab/mm.c:122 | only one block ends where a given block starts |
| MmView.CoalesceAddr | malloclab/mm.c:301-340 | coalesce returns the block itself when the block before is allocated, and otherwise the free block just before it |
| MmView.PlaceListed | malloclab/mm.c:348-375 | after place the lists still hold exactly the free blocks, each in its own list |
| MmView.PlaceWF | malloclab/mm.c:348-375 | place keeps every invariant mm_checkheap checks |
| MmView.PlaceResult | malloclab/mm.c:348-375 | place allocates the block with at least asize bytes. With 16 or more bytes to spare it is asize bytes, followed by a free remainder of csize - asize bytes on its list. Otherwise it is the whole block, with the next prev-allocated bit set. Every other allocation is kept |
| MmView.TakeNoFreePair | malloclab/mm.c:366-374 | allocating a whole block leaves no two free blocks touching |
| MmView.SplitNoFreePair | malloclab/mm.c:353-365 | after a split no two free blocks touch |
| MmView.CoalesceListed | malloclab/mm.c:310-337 | coalesce's removals and final add_free_block keep the lists right |
| MmView.CoalesceWF | malloclab/mm.c:301-340 | coalesce restores every invariant mm_checkheap checks for a free block whose neighbours may be free |
| MmView.CoalesceResult | malloclab/mm.c:301-340 | the block coalesce returns is free, covers the given block, is on its list, and every allocated block is kept |
| MmView.CoalesceFields | malloclab/mm.c:301-340 | coalesce changes only the blocks and the lists |
| MmView.MergedNext | malloclab/mm.c:313-318 | with a free successor the block grows over it and is relisted |
| MmView.MergedPrev | malloclab/mm.c:320-325 | with a free predecessor that block grows over the given one and is relisted |
| MmView.MergedBoth | malloclab/mm.c:327-335 | with both neighbours free the predecessor grows over both and is relisted |
| MmView.AbsorbNextAlloc | malloclab/mm.c:313-318 | after a merge with the next block, the block after the merged one is allocated |
| MmView.AbsorbKeeps | malloclab/mm.c:316 | merging with the next block leaves every other block as it was |
| MmView.FreedKeeps | malloclab/mm.c:275-286 | before coalescing, free has changed only the freed block's status |
| MmView.FreeWF | malloclab/mm.c:263-291 | free of an allocated block keeps every invariant mm_checkheap checks |
| MmView.FreeResult | malloclab/mm.c:263-291 | the freed bytes lie inside a free block, the heap end is unchanged, and every other allocated block stays allocated with its size |
| MmView.GrownListed | malloclab/mm.c:212-214 | extend_heap's new block goes on its list and the lists stay right |
| MmView.ExtendWF | malloclab/mm.c:190-217 | extend_heap keeps every invariant mm_checkheap checks |
| MmView.ExtendResult | malloclab/mm.c:190-217 | extend_heap returns a free block covering the new bytes, the heap end moves by size, and every allocation is kept |
| MmView.EmptyWF | malloclab/mm.c:172-178 | the heap of prologue and epilogue alone satisfies the invariants |
| MmView.InitResult | malloclab/mm.c:156-184 | after mm_init the heap is one free block of CHUNKSIZE bytes, alone in its list, all other lists empty |
| MmRep.ReadHeader | malloclab/mm.c:112-125 | GET_SIZE/GET_ALLOC/GET_PREV_ALLOC on a block's header read the view's size and bits |
| MmRep.ReadLinks | malloclab/mm.c:96-102 | GET_PREV and GET_NEXT of a listed block give its neighbours in the list, 0 at either end |
| MmRep.ReadSlot | malloclab/mm.c:559 | a list slot holds the offset of the list's first block, or 0 |
| MmRep.LinksOf | malloclab/mm.c:584-585 | a listed block's link words name the blocks before and after it in its list |
| MmRep.PushRep | malloclab/mm.c:557-577 | add_free_block's slot and link writes make the words hold the pushed view |
| MmRep.PushIn | malloclab/mm.c:557-577 | pushing keeps every list free of duplicates, naming heap blocks of its range |
| MmRep.UnlistRep | malloclab/mm.c:582-602 | remove_free_block's four cases make the words hold the view with the block unlisted |
| MmRep.UnlistIn | malloclab/mm.c:582-602 | unlisting keeps every list free of duplicates, naming heap blocks of its range |
| MmRep.SplitRep | malloclab/mm.c:357-362 | the split's header and footer writes give an allocated front and a free rest |
| MmRep.FlipRep | malloclab/mm.c:278-286 | rewriting one block's allocated bit, its footer and the next prev-allocated bit gives the flipped view |
| MmRep.MergeRep | malloclab/mm.c:317-333 | the merged block's header and footer words give the merged view |
| MmRep.GrowRep | malloclab/mm.c:204-210 | the new block's header, footer and the new epilogue give the grown view |
| MmRep.InitRep | malloclab/mm.c:161-178 | mm_init's slots, padding, prologue and epilogue words hold the empty heap |
| MmSteps.WriteTake | malloclab/mm.c:368-373 | place without a split writes the header with asize's block allocated and sets the next header's prev-allocated bit |
| MmSteps.WriteSplit | malloclab/mm.c:357-362 | place's split writes the allocated front's header and the free rest's header and footer |
| MmSteps.TakeRepStep | malloclab/mm.c:366-374 | after those writes the words hold place's view without a split |
| MmSteps.SplitRepStep | malloclab/mm.c:353-362 | after those writes the words hold the split view |
| MmSteps.PlaceIn | malloclab/mm.c:348-375 | place keeps the blocks tiling the heap and the lists naming free blocks |
| MmSteps.WriteFree | malloclab/mm.c:275-286 | free writes the cleared header, the footer, and clears the next prev-allocated bit |
| MmSteps.FreeRepStep | malloclab/mm.c:275-286 | after free's writes the words hold the view with the block free |
| MmSteps.ClearedIn | malloclab/mm.c:275-288 | the freed block is free and on no list before add_free_block |
| MmMerge.WriteNextMerge | malloclab/mm.c:316-318 | the merge with the next block writes the summed size to the header and footer |
| MmMerge.WritePrevMerge | malloclab/mm.c:322-324 | the merge with the previous block writes the summed size to ptr's footer and prev's header |
| MmMerge.WriteBothMerge | malloclab/mm.c:330-333 | the three-way merge writes prev's header and next's footer |
| MmMerge.NextRepStep | malloclab/mm.c:313-318 | after the writes the words hold the block grown over its successor |
| MmMerge.PrevRepStep | malloclab/mm.c:320-325 | after the writes the words hold prev grown over the block |
| MmMerge.BothRepStep | malloclab/mm.c:327-335 | after the writes the words hold prev grown over the block and its successor |
| MmGrow.WriteGrow | malloclab/mm.c:208-210 | extend_heap writes the new block's header with the old epilogue's prev bit, a footer, and a new epilogue |
| MmGrow.GrowIndexes | malloclab/mm.c:208-210 | those three words are the old epilogue and the last two words of the grown heap |
| MmGrow.EpilogueBits | malloclab/mm.c:208 | the new header keeps the prev-allocated bit the epilogue had |
| MmGrow.AppendedFacts | malloclab/mm.c:207-214 | the new block is free and unlisted, and listing it gives the view extend_heap coalesces |
| MmGrow.WritePrologue | malloclab/mm.c:159-178 | mm_init's writes over zeroed slots give the empty heap |
| MmFit.FirstUpToSpec | malloclab/mm.c:392-403 | the first-fit pass finds the first block of the list with at least asize bytes, and finds none exactly when all are smaller |
| MmFit.BestUpToSpec | malloclab/mm.c:404-425 | the best-fit pass finds a fitting block of the least size, the earliest of that size, and none exactly when nothing fits |
| MmFit.BestExactStays | malloclab/mm.c:406-416 | once an exact fit is found no later block replaces it, so returning it at once is the best fit |
| MmFit.FirstStays | malloclab/mm.c:393-401 | once a first fit is found later blocks do not change it |
| MmFit.SegFitSpec | malloclab/mm.c:382-426 | whichever pass applies, find_seg_fit finds a block exactly when some block of the list is large enough |
| MmFit.FitFromSpec | malloclab/mm.c:436-444 | from list i on, a block is found exactly when one of those lists holds a large enough block |
| MmFit.FitSpec | malloclab/mm.c:432-446 | find_fit returns a free block of at least asize bytes, and NULL only when no free block in the heap is that large |
| MmFit.SegLowMonotone | malloclab/mm.c:66-78 | the list bounds increase |
| MmHeap.WalkEnd | malloclab/mm.c:396 | a zero next link marks exactly the last block of a list |
| MmHeap.FindSegFit | malloclab/mm.c:382-426 | the loops over the link words return the block the first-fit or best-fit definition picks, or 0 |
| MmHeap.FindFit | malloclab/mm.c:432-446 | the search from the request's own list upward returns the block Fit picks, or 0 |
| MmHeap.Allocator.constructor | malloclab/mm.c:143-146 | before mm_init the heap is empty and heap_listp is 0 |
| MmHeap.Allocator.Sbrk | malloclab/mm.c:204-205 | mem_sbrk grows the heap by the bytes asked for and returns the old end, or returns -1 and changes nothing once the capacity would be passed |
| MmHeap.Allocator.AddFreeBlock | malloclab/mm.c:557-577 | the block heads its list with prev 0 and next the old head, and the old head's prev names it |
| MmHeap.Allocator.RemoveFreeBlock | malloclab/mm.c:582-602 | the block leaves its list and its neighbours, read from its prev and next words, are linked to each other |
| MmHeap.Allocator.Place | malloclab/mm.c:348-375 | the heap words become place's view and the invariants still hold |
| MmHeap.Allocator.PlaceSplit | malloclab/mm.c:353-365 | the split and the listing of the rest give place's view |
| MmHeap.Allocator.SplitFront | malloclab/mm.c:357-362 | the split's writes give the split view with the rest unlisted |
| MmHeap.Allocator.TakeWhole | malloclab/mm.c:366-374 | placing without a split gives place's view |
| MmHeap.Allocator.Coalesce | malloclab/mm.c:301-340 | the words become coalesce's view and the returned block is CoalesceAddr |
| MmHeap.Allocator.CoalesceNext | malloclab/mm.c:313-318 | the case of a free successor only |
| MmHeap.Allocator.CoalescePrev | malloclab/mm.c:320-325 | the case of a free predecessor only |
| MmHeap.Allocator.CoalesceBoth | malloclab/mm.c:327-335 | the case of both neighbours free |
| MmHeap.Allocator.MergeNext | malloclab/mm.c:316-318 | the header and footer writes of the next-block merge |
| MmHeap.Allocator.MergePrev | malloclab/mm.c:322-324 | the header and footer writes of the previous-block merge |
| MmHeap.Allocator.MergeBoth | malloclab/mm.c:330-333 | the header and footer writes of the three-way merge |
| MmHeap.Allocator.Init | malloclab/mm.c:156-184 | mm_init returns 0 with the heap one free CHUNKSIZE block, passing mm_checkheap, when the capacity holds its 592 bytes, and -1 otherwise from whichever mem_sbrk fails |
| MmHeap.Allocator.ExtendHeap | malloclab/mm.c:190-217 | on success the words become extend_heap's view and the coalesced block is returned; when mem_sbrk fails, NULL and nothing changes |
| MmHeap.Allocator.GrowAndCoalesce | malloclab/mm.c:207-216 | after mem_sbrk the new block is written, listed and coalesced |
| MmHeap.Allocator.GrowBlock | malloclab/mm.c:207-210 | the new block at the old end is free, of the new size, and on no list yet |
| MmHeap.Allocator.Started | malloclab/mm.c:229-232 | the heap malloc works on once the lazy mm_init has run satisfies the invariants |
| MmHeap.Allocator.Malloc | malloclab/mm.c:223-257 | malloc runs mm_init when needed and leaves MallocState; it returns MallocPtr, which is NULL for size 0 |
| MmHeap.Allocator.FitOrExtend | malloclab/mm.c:243-256 | it places in find_fit's block, or else in extend_heap's block, or returns NULL when the heap cannot grow |
| MmHeap.Allocator.Free | malloclab/mm.c:263-291 | free(NULL) and a pointer past the heap change nothing; an allocated block is freed and coalesced as FreeView says |
| MmHeap.Allocator.FreeWrite | malloclab/mm.c:275-286 | the block is marked free with a footer, the next prev-allocated bit is cleared, and the block is on no list yet |
| MmHeap.Allocator.Realloc | malloclab/mm.c:453-487 | realloc(NULL, n) is malloc(n); realloc(p, 0) frees p and returns NULL; otherwise it mallocs, copies CopyLen bytes and frees p, and when malloc fails it returns NULL with the heap unchanged (the corrected copy length; see Left out) |
| MmHeap.Allocator.MoveBlock | malloclab/mm.c:469-486 | malloc, then copy, then free of the old block, or NULL with nothing freed (the corrected copy length; see Left out) |
| MmHeap.Allocator.Calloc | malloclab/mm.c:493-502 | calloc is malloc of nmemb * size bytes |
| MmMalloc.GrowBytes | malloclab/mm.c:250 | the growth is 8-aligned and at least both asize and CHUNKSIZE |
| MmMalloc.MallocResult | malloclab/mm.c:243-256 | a non-NULL block of malloc is allocated with at least asize bytes, every other allocation is kept, and the invariants hold; NULL only when no block fits and the heap cannot grow |
| MmMalloc.MallocFits | malloclab/mm.c:223-257 | a non-NULL result of malloc(size) has room for size bytes after its header; malloc(0) is NULL |
| MmMalloc.CopyLen | malloclab/mm.c:477-481 | the copy is the smaller of the new size and the old payload |
| MmMalloc.CopyLenAsWrittenOverreads | malloclab/mm.c:478-481 | as written, when the new size is no smaller, the copy takes the old payload and one word more |
| MmMalloc.CopyLenAsWrittenExample | malloclab/mm.c:478-481 | realloc(p, 100) on a 16-byte block copies 16 bytes out of 12 bytes of payload |
| MmMalloc.ReallocResult | malloclab/mm.c:469-486 | a non-NULL result is a new block with room for size bytes and the old block's bytes are released; NULL leaves the heap unchanged |
| MmMalloc.ReallocZero | malloclab/mm.c:463-466 | realloc(p, 0) frees p and returns NULL |
| MmMalloc.CallocBytesAsWrittenWraps | malloclab/mm.c:494 | as written, calloc(2^63 + 1, 2) asks malloc for 2 bytes |
| MmMalloc.CallocFits | malloclab/mm.c:493-502 | with the product unwrapped, a non-NULL result of calloc has room for nmemb * size bytes |
| ShellJobs.MaxJidOfIsMax | tshlab/tsh.c:725-734 | maxjid's value is at least 0 and every jid, and it is some slot's jid unless it is 0 |
| ShellJobs.MaxJidOfCleared | tshlab/tsh.c:717-734 | a table of cleared slots has maxjid 0 |
| ShellJobs.Advance | tshlab/tsh.c:749-751 | nextjid goes up by one and wraps to 1 only once it passes MAXJOBS |
| ShellJobs.JobTable.constructor | tshlab/tsh.c:57-66 | the static table starts with every slot cleared and nextjid 1 |
| ShellJobs.JobTable.ClearJob | tshlab/tsh.c:707-713 | slot i becomes pid 0, jid 0, UNDEF, empty command line, and no other slot changes |
| ShellJobs.JobTable.InitJobs | tshlab/tsh.c:716-722 | every slot is cleared and nextjid is not touched |
| ShellJobs.JobTable.MaxJid | tshlab/tsh.c:725-734 | returns the largest jid in the table, or 0 |
| ShellJobs.JobTable.AddJob | tshlab/tsh.c:737-764 | returns 0 with nothing changed for pid < 1 or a full table. Otherwise it fills the first slot with pid 0, gives it the old nextjid, advances nextjid and changes no other slot |
| ShellJobs.JobTable.DeleteJob | tshlab/tsh.c:767-783 | returns 0 with nothing changed for pid < 1 or an absent pid. Otherwise it clears the first slot holding pid, changes no other slot, and sets nextjid to maxjid + 1 |
| ShellJobs.JobTable.FgPid | tshlab/tsh.c:785-794 | the pid of the first FG slot, or 0 when there is none |
| ShellJobs.JobTable.GetJobPid | tshlab/tsh.c:796-807 | the first slot holding pid; none exactly when pid < 1 or no slot holds it |
| ShellJobs.JobTable.GetJobJid | tshlab/tsh.c:809-820 | the first slot holding jid; none exactly when jid < 1 or no slot holds it |
| ShellJobs.JobTable.Pid2Jid | tshlab/tsh.c:822-835 | the jid of the first slot holding pid, 0 for pid < 1 or no match |
| ShellJobs.JobTable.Jid2Pid | tshlab/tsh.c:211-218 | the pid of the first slot holding jid, -1 when there is none |
| ShellJobs.InitThenQuery | tshlab/tsh.c:716-820 | a usage example: after initjobs, maxjid is 0 and no slot is found by any pid or jid, as the contracts of InitJobs, MaxJid, GetJobPid and GetJobJid together give |
| ShellParse.SkipDelimsSpec | tshlab/tsh.c:514 | strspn skips exactly the run of " \t\r\n" |
| ShellParse.WordEndSpec | tshlab/tsh.c:543 | strcspn stops at the first delimiter or the end of the line |
| ShellParse.FindCharSpec | tshlab/tsh.c:540 | strchr finds the first closing quote, and NULL exactly when there is none |
| ShellParse.TokenAt | tshlab/tsh.c:518-551 | each token moves the scan strictly forward |
| ShellParse.Feed | tshlab/tsh.c:557-571 | recording a token adds at most one argument, and a redirection sign adds none |
| ShellParse.Interp | tshlab/tsh.c:512-577 | the loop never records more than MAXARGS - 1 arguments |
| ShellParse.Classify | tshlab/tsh.c:591-601 | builtins is QUIT, JOBS, BG or FG exactly when argv[0] is "quit", "jobs", "bg" or "fg", and NONE otherwise |
| ShellParse.Parse | tshlab/tsh.c:484-608 | a NULL line gives -1; a parsed line has at most MAXARGS - 1 arguments, and a foreground one at least one |
| ShellParse.ScanWord | tshlab/tsh.c:537-554 | the token at buf, quoted or not, is the word the lexer defines, and an unmatched quote is reported |
| ShellParse.ScanStep | tshlab/tsh.c:512-577 | one pass of the scanning loop advances or ends as Interp over the remaining tokens says |
| ShellParse.ParseLine | tshlab/tsh.c:484-608 | the scanning loop and the final checks compute exactly Parse |
| ShellParse.ParsePlainWords | tshlab/tsh.c:512-607 | a line of plain words joined by spaces parses back to those words, in the foreground, with no redirection and argv[0] classified |
| ShellParse.ParseBackground | tshlab/tsh.c:604-607 | a last argument "&" makes the job a background job and is removed from argv |
| ShellParse.ParseBlank | tshlab/tsh.c:588-589 | a line of delimiters only returns 1 with no arguments |
| ShellParse.ParseQuoted | tshlab/tsh.c:537-540 | a quoted argument is recorded without its quotes |
| ShellParse.ParseUnmatchedQuote | tshlab/tsh.c:546-551 | an unmatched quote returns -1 |
| ShellParse.ParseTrailingRedirect | tshlab/tsh.c:579-583 | a redirection sign with no file name after it returns -1 |
| ShellParse.ParseRedirections | tshlab/tsh.c:518-566 | "cmd < a > b" gives argv [cmd], input file a and output file b |
| ShellParse.ParseSecondInput | tshlab/tsh.c:518-522 | a second "<" once the input file is set returns -1 |
| ShellParse.ParseBothPending | tshlab/tsh.c:567-569 | a token with both redirections pending returns -1 |
| ShellParse.InterpCons | tshlab/tsh.c:512-577 | the loop handles one token and then the rest |
| ProxyCache.OldestIndexIsOldest | proxylab/cache.c:98-107 | the block evict picks has the least age, and every block before it is strictly younger, so ties go to the block nearest the head |
| ProxyCache.OldestIndexUnique | proxylab/cache.c:98-107 | those two facts determine the block |
| ProxyCache.RemoveAtTotal | proxylab/cache.c:86-90 | removing a block lowers the cached total by its size |
| ProxyCache.RemoveOldest | proxylab/cache.c:91-120 | evict on a non-empty cache removes exactly one entry |
| ProxyCache.RemoveOldestTotal | proxylab/cache.c:86-90 | evict lowers the cached total by the victim's size |
| ProxyCache.TrimmedFits | proxylab/cache.c:34-38 | after cache_insert's evictions the kept entries and the new object fit MAX_CACHE_SIZE |
| ProxyCache.TrimmedIsSubseq | proxylab/cache.c:34-38 | eviction only removes entries, and the survivors keep their order |
| ProxyCache.RemoveAtIsSubseq | proxylab/cache.c:108-116 | unlinking a block keeps the others in order |
| ProxyCache.TrimmedNoEviction | proxylab/cache.c:34-35 | nothing is evicted when the object already fits |
| ProxyCache.FindIndexIsFirst | proxylab/cache.c:66-83 | find_cache finds nothing exactly when no entry has the uri, and otherwise the first entry that has it |
| ProxyCache.FindIndexAt | proxylab/cache.c:70-76 | the first index holding the uri is what find_cache returns |
| ProxyCache.TotalUpdate | proxylab/cache.c:81 | restamping an entry's age does not change the total |
| ProxyCache.EvictAsWrittenFreesNull | proxylab/cache.c:117-119 | as written, on a non-empty cache the cursor evict reads cur->uri from is NULL, and the cached size is unchanged |
| ProxyCache.EvictAsWrittenKeepsHead | proxylab/cache.c:111-116 | as written, when the victim is the head and has a successor, head still points at the victim |
| ProxyCache.EvictAsWrittenKeepsPrev | proxylab/cache.c:111-114 | as written, when the victim has a predecessor, its successor's prev still names the victim |
| ProxyCache.WalkEndsAtNull | proxylab/cache.c:98-107 | the selection loop over a well-linked list ends with its cursor NULL |
| ProxyCache.Block.constructor | proxylab/cache.c:39-46 | a new block holds the given uri, bytes, age and size, unlinked |
| ProxyCache.Cache.constructor | proxylab/cache.c:18-23 | cache_init gives an empty list with size 0 |
| ProxyCache.Cache.Find | proxylab/cache.c:66-83 | find_cache returns the first block with the uri and stamps only its age with now; with no match it returns NULL and changes nothing; the list structure never changes |
| ProxyCache.Cache.Stamp | proxylab/cache.c:81 | only the found entry's age changes |
| ProxyCache.Cache.SelectOldest | proxylab/cache.c:94-107 | the selection loop returns the block OldestIndex picks |
| ProxyCache.Cache.Evict | proxylab/cache.c:86-120 | evict removes the oldest entry, keeps the others in order, and lowers size by the victim's size; on an empty cache it changes nothing |
| ProxyCache.Cache.Unlink | proxylab/cache.c:108-119 | the victim leaves the list and its bytes leave the budget |
| ProxyCache.Cache.Splice | proxylab/cache.c:108-116 | the victim's neighbours are linked to each other |
| ProxyCache.Cache.SpliceMiddle | proxylab/cache.c:111-112 | a victim between two blocks is skipped in both directions |
| ProxyCache.Cache.SpliceLast | proxylab/cache.c:111-112 | a last victim leaves its predecessor last |
| ProxyCache.Cache.SpliceHead | proxylab/cache.c:113-116 | a head victim makes its successor the head |
| ProxyCache.Cache.MakeRoom | proxylab/cache.c:34-38 | cache_insert's loop evicts until size + need fits MAX_CACHE_SIZE, leaving Trimmed, evicting with the corrected Evict |
| ProxyCache.Cache.PushFront | proxylab/cache.c:45-57 | the new block heads the list, the old list follows unchanged, and size grows by its size |
| ProxyCache.Cache.LinkFront | proxylab/cache.c:49-57 | the pointer updates link the new block before the old head |
| ProxyCache.Cache.Insert | proxylab/cache.c:30-58 | the cache becomes the new entry (uri, copy of the bytes, now, size) followed by the entries eviction kept, and the budget holds, evicting with the corrected Evict |
| ProxyRequest.RunEndSpec | proxylab/proxy.c:306 | a %[^/] run stops at the first '/' or the end |
| ProxyRequest.SpanEndSpec | proxylab/proxy.c:163 | a run of white space, or of non-white space, stops where the class changes |
| ProxyRequest.ConvAt | proxylab/proxy.c:163 | a %s conversion at a word stores that word |
| ProxyRequest.SplitPortShape | proxylab/proxy.c:311-315 | the host is cut before any ':', the path is kept, and without ':' the port is "80" |
| ProxyRequest.SplitPortWithPort | proxylab/proxy.c:312-315 | host:port splits into the host and the text after the ':' |
| ProxyRequest.ParseUriShape | proxylab/proxy.c:302-318 | parse_uri leaves a host with no ':' or '/', and a path that is empty or begins with '/' |
| ProxyRequest.ParseUriAbsolute | proxylab/proxy.c:307-309 | with "://" the scheme is dropped and the host part runs to the path |
| ProxyRequest.ParseUriWithPort | proxylab/proxy.c:302-315 | scheme://host:port/path splits back into host, path and port |
| ProxyRequest.ParseUriDefaultPort | proxylab/proxy.c:311 | without a port the default "80" is used |
| ProxyRequest.ParseUriNoScheme | proxylab/proxy.c:305-306 | without "://" the host runs to the first '/' |
| ProxyRequest.HasSlashSpec | proxylab/proxy.c:158 | strstr(line, "/") holds exactly when the line contains '/' |
| ProxyRequest.CheckRequestLineSpec | proxylab/proxy.c:158-167 | the line is accepted exactly when it contains '/' and its first word is GET in any case, and then the uri is the second word |
| ProxyRequest.CheckRequestLineAccepts | proxylab/proxy.c:158-167 | "GET uri version" with its CRLF, GET in any case, yields its uri |
| ProxyRequest.CheckRequestLineRefusesMethod | proxylab/proxy.c:163-166 | a line whose first word is not GET is refused |
| ProxyRequest.HeaderLinesSpec | proxylab/proxy.c:333 | the header lines are those before the first "\r\n" or "\n" line |
| ProxyRequest.HeaderLinesAt | proxylab/proxy.c:333 | the lines before the first blank one are the header lines |
| ProxyRequest.ForwardedSnoc | proxylab/proxy.c:334-344 | each line is forwarded unless it starts with a replaced name, and a "Host: " line replaces host_header |
| ProxyRequest.ForwardedMembers | proxylab/proxy.c:336-344 | a line is forwarded exactly when it is a header line that is not replaced |
| ProxyRequest.ForwardedAppend | proxylab/proxy.c:343 | forwarding keeps the lines in their order |
| ProxyRequest.HostHeaderNone | proxylab/proxy.c:174-175 | without a Host line the proxy's "Host: " + host_name stays |
| ProxyRequest.HostHeaderLast | proxylab/proxy.c:334-335 | otherwise the last Host line wins |
| ProxyRequest.ReadHeaders | proxylab/proxy.c:324-350 | the loop leaves host_header and other_header as HostHeader and the concatenated forwarded lines, with other_header started empty (see Left out) |
| ProxyRequest.ComposeAsWrittenEndsAtHost | proxylab/proxy.c:251-258 | as written, a client Host line ends the server's header block right after it |
| ProxyRequest.StripEol | proxylab/proxy.c:252 | the corrected Host header is a prefix of the one read |
| ProxyRequest.StripEolLine | proxylab/proxy.c:252 | taking the line end off gives back the line, whichever end it had |
| ProxyRequest.ComposeHead | proxylab/proxy.c:251-258 | with the correction the server reads the request line, the Host line, the fixed lines and every forwarded client line, in order |
| ProxyRequest.ComposeNoClientHost | proxylab/proxy.c:174-175 | when the Host header is the proxy's own "Host: " + host_name, the corrected request is the one the source sends |
| ProxyRequest.HeadLines | proxylab/proxy.c:251-258 | CRLF-terminated lines followed by an empty line read back as those lines |
| ProxyRequest.RelayEndSpec | proxylab/proxy.c:284-287 | the relay stops right after the first EPIPE, and only when there is one |
| ProxyRequest.Memcpy | proxylab/proxy.c:280 | the bytes land at the offset and nothing else in the buffer changes |
| ProxyRequest.Relay | proxylab/proxy.c:268-294 | every chunk up to the first EPIPE reaches the client. The whole response is cached exactly when no EPIPE and no read error happened and it is below MAX_OBJECT_SIZE |
| ProxyRequest.SendRequest | proxylab/proxy.c:235-296 | a request that does not go out ends it. Otherwise the response is relayed, and when cacheable it is inserted under the uri, stamped with now; else the cache is unchanged; the insert evicts with the corrected Evict |
| ProxyRequest.HandleRequest | proxylab/proxy.c:144-186 | a bad request line is refused with the cache untouched. A cached uri is served when the reply goes out, its age restamped. Otherwise the request is composed from parse_uri's parts and the filtered headers, with the corrected Host line of Compose and an other_header started empty |

## Left out

- mem_sbrk, mem_heap_lo and mem_heap_hi come from memlib, which is not part of this model. The heap is a sequence of words that grows at the end by zeroed words up to a fixed capacity. mem_heap_lo is offset 0 and mem_heap_hi + 1 is four times the word count.
- BASEADDR and the 64-bit list slots are replaced by offsets. A slot holds the offset of its first block in its first word and 0 in its second, and offsets stay below 2^32.
- Payload bytes are not modelled, so realloc's memcpy and calloc's memset have no content. MmHeap.Allocator.Realloc returns a copy length instead.
- Lines 194-199 of extend_heap are dead code, because line 201 overwrites `size`. The model leaves them out.
- extend_heap's `size >= 2*DSIZE` test and the `!= NULL` tests at mm.c:283 and 371 are always true for the callers, so the model takes those branches unconditionally.
- MmHeap.Allocator.ExtendHeap: requires at least CHUNKSIZE bytes' worth of words. These are the only requests the source makes: mm_init asks for 116 words and malloc for MAX(asize, CHUNKSIZE)/4.
- MmHeap.Allocator.Free: requires the pointer to be NULL, past the heap, or an allocated block. The C code corrupts the heap for any other pointer inside the heap, and that behaviour is not modelled.
- MmHeap.Allocator.Realloc: requires the old pointer to be NULL or an allocated block, for the same reason.
- MmHeap.Allocator.Realloc: its `copied` result is the corrected copy length MmMalloc.CopyLen (the mm.c:478-481 row under Findings), the smaller of size and the old payload. The source copies min(size, GET_SIZE) bytes: 16 rather than 12 for realloc(p, 100) on a 16-byte block. MmMalloc.CopyLenAsWritten is the source's length.
- MmHeap.Allocator.MoveBlock: reports the same corrected copy length as Realloc, for the same reason.
- MmHeap.Allocator.constructor: requires a capacity of at least the 592 bytes mm_init asks for (INIT_BYTES). Only such allocators are built, so a failed mm_init is never followed by a malloc. The source's malloc ignores mm_init's result (mm.c:230-232) and then works on a half-built heap, which is not modelled.
- MmHeap.Allocator.Init: returns -1 exactly when the capacity is below INIT_BYTES, as mm.c:162-163, 172-173 and 181-182 do. It does not promise what the half-built heap then holds. The source leaves heap_listp as (void *)-1 when the second mem_sbrk fails, and the model's offsets cannot hold that value.
- mm_checkheap, check_list, check_block, in_heap and aligned print messages rather than returning a verdict. The model states their checks as the predicates MmView.WF and MmRep.Rep, and proves them kept by every operation.
- check_list does not check the last block of a list. The predicates check every block.
- find_fit's last call searches list 13 again. MmHeap.FindFit repeats that search, as the source does. The function MmFit.Fit that specifies it stops after the last list, because the second search cannot find a block the first one missed.
- MmLayout.AdjustSize: does not model the size_t wrap-around of `size + 11`. The wrap is shown separately (see Findings).
- MmHeap.Allocator.Calloc: does not model the wrapped product; that wrap is listed under Findings. Nor does it model the memset at mm.c:499, which writes through NULL when malloc fails with bytes > 0: payload bytes are not modelled, so that write has no counterpart here.
- The shell's main, eval, fork and exec, I/O redirection, the signal handlers, the builtins bg, fg and jobs, listjobs's output and the error wrappers are left out. They are process management and asynchronous signal handling.
- ShellParse.ParseLine: requires the line to be shorter than MAXLINE and to contain no NUL. The shell reads lines with fgets into a MAXLINE buffer. A longer line would leave the strncpy copy unterminated, and a NUL ends a C string early.
- The argv of the model holds copies of the tokens, not pointers into parseline's static array. The NULL that ends argv is implicit in the sequence's length.
- ShellJobs.JobTable.AddJob: stores the command line whole. The source's strcpy into a MAXLINE buffer, and its verbose and "too many jobs" output, are left out.
- The model does not claim that jids are unique or lie in 1..16. deletejob can set nextjid to 17, and the wrap to 1 can then meet a live jid.
- Left out of the proxy: sockets, rio buffering, threads, the reader-writer lock around read_cache and write_cache, and main. Each request is handled alone.
- A request line the client did not send (rio_readlineb returning 0 or less) is modelled as the empty line. That line is refused like the source's -1 return.
- read_headers exits the process on a read error other than ECONNRESET. The model takes the client's lines as a given sequence.
- ProxyRequest.ReadHeaders: starts other_header as the empty string, which corrects the source. proxy.c:147 declares other_header without initialising it, and read_headers only appends to it (proxy.c:343). So the source's request, which copies other_header at proxy.c:258, begins its forwarded part with whatever stack bytes come before the first NUL, even when the client sent no forwarded line. ProxyRequest.HandleRequest forwards the corrected, empty-started value. The self-overlapping `sprintf(buf, "%s...", buf, ...)` calls at proxy.c:252-258 and 343 are modelled as concatenation.
- ProxyRequest.ReadHeaders: when the client's lines run out before the blank line, the model ends the headers there, which corrects the source. rio_readlineb comes from csapp.c, which is not part of this model. At end of file it returns 0 without writing buf. The loop at proxy.c:333-349 would then handle the stale last line again and again, appending it to other_header without end. The same happens after an ECONNRESET at proxy.c:346-348.
- The fixed-size MAXLINE buffers of the proxy and sscanf's corner cases beyond those modelled (conversions that do not match) are left out. Strings are unbounded.
- open_clientfd and the write of the request to the server become the `requestSent` argument. The server's response chunks, the results of writing them to the client and a read error are arguments too.
- The debug printf of each chunk at proxy.c:279 is left out.
- read_cache's write of a cached object to the client becomes the `replyOk` argument. When that write fails, the request goes to the server, as in the source.
- cache.c's Malloc and Free of nodes, uris and contents, and clear, are memory management. The model's list holds values and Dafny reclaims objects.
- ProxyCache.Cache.Insert: requires the object to be at most MAX_CACHE_SIZE bytes. Otherwise cache_insert's loop evicts every block and never ends. Its callers only store objects below MAX_OBJECT_SIZE.
- ProxyCache.Cache.Insert: evicts with the corrected ProxyCache.Cache.Evict (the three cache.c rows under Findings). As written, the first eviction cache_insert needs (cache.c:36) dereferences NULL at cache.c:117, so the source never reaches the state Insert promises once the cache is full.
- ProxyCache.Cache.MakeRoom: evicts with the corrected Evict, for the same reason as Insert. It promises Trimmed, which the source does not reach once an eviction is needed.
- ProxyRequest.SendRequest: caches the response with the corrected Insert. Its cache outcome is what the source gives only when no eviction is needed.
- ProxyRequest.HandleRequest: forwards the request of the corrected ProxyRequest.Compose (the proxy.c:252 row under Findings). After a client Host line the source sends `Host: h\r\n\r\n` followed by the fixed lines, and ProxyRequest.ComposeAsWritten is that request. Without a client Host line the two requests are the same text whenever the host does not end in a line break (ProxyRequest.ComposeNoClientHost). Its forwarded part also starts from the empty other_header, as the ProxyRequest.ReadHeaders line above says.
- time(NULL) is the `now` argument of Find, Insert, SendRequest and HandleRequest.

## Findings

| source | as written | input that shows it | evidently intended | confidence | as-written member | corrected member |
|---|---|---|---|---|---|---|
| malloclab/mm.c:241 | `size + WSIZE + DSIZE - 1` is computed in size_t and wraps | malloc(2^64 - 5) rounds to a 0-byte block | a request that cannot be met returns NULL | not executed; high | MmLayout.AdjustSizeAsWrittenWraps | MmLayout.AdjustSizeSpec |
| malloclab/mm.c:478-481 | the copy length is min(size, GET_SIZE(HDRP(oldptr))), the whole block rather than its payload | realloc(p, 100) on a 16-byte block copies 16 bytes from 12 bytes of payload, reading the next header | copy min(size, old payload) | not executed; high | MmMalloc.CopyLenAsWrittenExample | MmMalloc.CopyLen |
| malloclab/mm.c:494-499 | `nmemb * size` wraps in size_t | calloc(2^63 + 1, 2) asks malloc for 2 bytes | the whole product, or NULL when it overflows | not executed; high | MmMalloc.CallocBytesAsWrittenWraps | MmMalloc.CallocFits |
| proxylab/proxy.c:252 | a client Host line keeps its CRLF and another CRLF is appended | a client line "Host: h\r\n" makes an empty line after it, ending the server's header block | the Host header on a line of its own, then the fixed and forwarded headers (which repeat a client Host line, since read_headers does not filter Host lines) | not executed; high | ProxyRequest.ComposeAsWrittenEndsAtHost | ProxyRequest.ComposeHead |
| proxylab/cache.c:117-119 | evict calls `Free(cur->uri)` with `cur`, which is NULL once the selection loop ends, and no line lowers `c->size` | evict on any non-empty cache, as the first eviction cache_insert needs at cache.c:36: `cur->uri` dereferences NULL, and even without the crash the size would stay, so the loop could not make room | free the victim and subtract its size | not executed; high | ProxyCache.EvictAsWrittenFreesNull | ProxyCache.RemoveOldestTotal |
| proxylab/cache.c:111-116 | when the victim is the head with a successor, only `next->prev` is updated | ages [1, 2]: head still points at the evicted block | the successor becomes the head | not executed; high | ProxyCache.EvictAsWrittenKeepsHead | ProxyCache.Cache.Evict |
| proxylab/cache.c:111-112 | when the victim has a predecessor, `next->prev` is not updated | ages [2, 1, 3]: the third block's prev still names the evicted block | both neighbours skip the victim | not executed; high | ProxyCache.EvictAsWrittenKeepsPrev | ProxyCache.Cache.Evict |
