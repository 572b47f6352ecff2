# Verified model of the five homework programs

The repository holds five C programs. This project models the parts of them that carry an algorithm or
a protocol, in the form the C code has, and proves what their documentation and tests promise.

| files | what they model |
|---|---|
| `sf_sizes`, `sf_heap`, `sf_runs` | the heap of `hw3/src/sfmm.c` as blocks and lists: size arithmetic, the heap invariant, every operation as a function on heaps, whole runs |
| `sf_memory`, `sf_steps`, `sf_allocator` | the same heap as 64-bit words in memory: headers, footers and link words are overwritten in place by class `Sfmm`, which is proved to do what the functions say |
| `sf_answers` | what the three operations answer, in terms of block sizes alone: success, the block given, the cut, the place of a freed block |
| `sf_service` | any series of calls on one allocator, and the payloads its client holds |
| `sf_departures`, `sf_witnesses` | each place where `sfmm.c` departs from its own header file: the code as written, exactly when it agrees, and runs after which it does not |
| `finddup_lists`, `finddup_scan`, `finddup_report`, `finddup` | the duplicate finder of `hw2/src/finddup.c`: the array that is flagged, sorted and rotated in place, and the report |
| `crc32`, `crc32_laws`, `crc32_division` | the table-driven CRC of `hw2/src/crc32.c` against bit-serial division, its algebra, and polynomial division over GF(2) (section 8.1.1.6.2 of ITU-T V.42) |
| `goertzel` | the filter of `hw1/src/goertzel.c` over the reals, against the direct sum of a DFT bin |
| `client_registry` | the registry of `hw5/src/client_registry.c` as a transition system over any number of threads |
| `rio`, `protocol` | the robust I/O of `hw5/src/csapp.c` on a descriptor with arbitrary short reads, interrupts and errors, and the packets of `hw5/src/protocol.c` on top of it |
| `getopt`, `player`, `audio` | the option scanner, the ratings and the audio file codec |
| `wrappers` | the option and byte types that they share |

`dafny verify dfyconfig.toml` checks everything.

Methods follow their C functions loop by loop; long ones are cut into several methods at points where the
state has a name. `SfService.Serve`, `Rio.Serve`, `Protocol.Transfer`, `GetOpt.Scan` and
`Goertzel.Strength` are not in the source: they stand for any caller, and carry a claim about a whole
series of calls.

## How the allocator is modelled

A row of memory is eight bytes; a block at `p` has its header at `p + 8`, its links at `p + 16` and
`p + 24`, and its footer in the first row of the next block, as in `hw3/include/sfmm.h`. Words are
modelled unmasked; storing them under the XOR with the magic number is undone by reading them
(`MaskTwice`). `Heap` is the abstract view: a map from addresses to blocks, the ten main lists, the ten
quick lists and their counters. `Repr` says that memory represents a heap: all headers and footers, ten
circular doubly linked lists, ten `NULL`-ended quick lists. Each method of `Sfmm` performs the writes of
its C function and ends with memory representing the heap that the function on heaps gives.

The code of `sfmm.c` departs from the contract in its header file. At the following points, marked
"documented" in `sf_allocator.dfy`, class `Sfmm` does what the contract says, because the code as written
leaves a heap that breaks the contract for every later call; `sf_departures.dfy` keeps the code as
written as functions and proves, for all heaps, exactly when it agrees. The word in the row behind the
last block, which is no header, is a parameter of these functions. `sf_witnesses.dfy` leads from the first
page, by a short list of calls, to heaps on which the code goes wrong.

- A neighbour is taken off its list by the first equal header, not by its address (lines 121-139, used at
  508, 755, 770, 783): `NeighbourUnlinkedExactly`, and in `FreeExactly`, `SplitExactly`, `PageExactly`;
  reached in `CrowdedGoesWrong`.
- Merging with the block before drops that block's own prev-allocated bit (lines 748-757, 765-771):
  `MergedHeaderExact`; reached in `CrowdedGoesWrong`.
- The row behind the last block is read and written as if it were a header (lines 211-228, 718-726):
  `ClearWrittenExactly` on memory, and in `FreeExactly` and `MergedHeaderExact`; reached in
  `FullGoesWrong`.
- Allocation asks whether the block after the one taken is the last of the heap (lines 230-243, 275, 363):
  `MarkedExact` for the next block's bit, `FlagAllocatedExact` and `FlagPoppedExact` for the flag; reached
  in `CrowdedUnmarked`, `FirstGoesWrong` and `QuickGoesWrong`.
- The flag for an allocated last block is not reset when that block is freed: `FlagFreedExact`; reached in
  `FullGoesWrong`.
- A fresh page behind an allocated last block is not listed before it is removed, and the class of a
  grown block is computed from a word that still has its flag bit (lines 498-528): `PageExactly`,
  `UnlistedPageMissed` and `FlaggedClassExact`; reached in `FullGoesWrong` and `EdgeGoesWrong`.
- `sf_realloc` compares the request with the block size instead of the block it needs (line 896), and
  writes no footer and no list entry for what it splits off unless the next block is free (lines 934-947):
  `GrowBranchExact` with `GapWraps`, and `SplitExactly`; reached in `CrowdedGoesWrong` and `FullGoesWrong`.
- The aligned size wraps around for requests above 2^64 - 24 (`AlignedBlockIsLeast`), and the first page is
  not checked for `NULL` (lines 387-406): `FirstPageExactly`.

Where the code merely differs from the prose it is followed: a flush does not reset the quick list's
counter, so a list whose counter has reached five is flushed on every further free until a block is
taken from it, and pointer validation accepts a block that is already on a quick list. Freeing such a
block again leaves links that never end (`DoubleFreeLoops`).

## Other places where code and documentation disagree

The code is followed and the difference is stated by a lemma: `Comp1Exact` (the narrowing in the sort
order), `StrengthExact` (N * N in 32 bits), `WhatFreezes` (failed registry calls keep the lock),
`SendFrames` and `CutShortExactly` (packets without their payload, streams that end inside a packet),
`DriftExactly` and `OddsPer400` (a draw costs both players, and the exponent is cut to a whole number), `AnnotationExactly` and `BytesRoundTrip` (files with an
annotation, or an odd number of sample bytes).

## Model

| member | source | states |
|---|---|---|
| `SfSizes.AlignedBlockIsLeast` | hw3/src/sfmm.c:45-60 | The rounded size is the least 16-aligned block that holds header and request, exactly for requests up to 2^64 - 24; above that the addition wraps around. |
| `SfSizes.FreeListIndexIsSizeClass` | hw3/src/sfmm.c:90-111 | The ten-way branch is the size class: class c holds sizes in (2^(c-1)M, 2^c M], class 0 the minimum, class 9 all above. |
| `SfSizes.QuickIndexExactly` | hw3/src/sfmm.c:61-87 | Quick lists are for exactly the sizes 32, 48, ..., 176, list (size - 32) / 16. |
| `SfSizes.HeaderFields` | hw3/src/sfmm.c:142-154 | A header word built from a size and two status bits gives each of them back. |
| `SfHeap.AllocateKeepsHeap` | hw3/src/sfmm.c:262-312 | Taking a free block, whole or split, leaves a heap that tiles exactly, with right status bits, no two free blocks side by side, and every free block once on the list of its class. |
| `SfHeap.FreeKeepsHeap` | hw3/src/sfmm.c:728-795 | Freeing with coalescing, in all four neighbour cases, keeps the same invariant; in particular no two adjacent blocks are free afterwards. |
| `SfHeap.FreeSparesOthers` | hw3/src/sfmm.c:798-869 | Every allocated block but the freed one keeps its place, size and kind. |
| `SfRuns.FindFitExact` | hw3/src/sfmm.c:434-452 | The class-by-class search, comparing header words with their flag bits, finds a block exactly when some free block anywhere is big enough, and what it finds is one. |
| `SfRuns.EveryRunIsSafe` | hw3/include/sfmm.h:103-192 | After any sequence of malloc, free and realloc calls on a fresh heap the invariant holds, the client's pointers are the live blocks, and payloads are aligned, as long as requested, inside the heap and pairwise disjoint. |
| `SfRuns.TilesExactly` | hw3/include/sfmm.h:16-70 | Every address of a tiled heap lies in exactly one block. |
| `SfAnswers.MallocSucceedsExactly` | hw3/src/sfmm.c:373-541 | A block on the quick list, or any free block that is big enough, serves the request without a new page; otherwise it fails exactly when the free space at the end and all pages left are too short, and success takes the fewest pages that suffice. |
| `SfAnswers.MallocAnswer` | hw3/src/sfmm.c:411-536 | Which block is given (head of the quick list, first fit of the lowest class, or the end of the heap), how it is cut from 32 bytes on, where the rest is listed, and that all other blocks stay. |
| `SfAnswers.FirstAnswer` | hw3/src/sfmm.c:387-409 | The very first call answers from one free block of 4080 bytes. |
| `SfAnswers.SmallFreed` | hw3/src/sfmm.c:814-845 | A freed block of 32 to 176 bytes is first on quick list (size - 32) / 16 and not free; the list is emptied before only if its counter is five. |
| `SfAnswers.FlushedAreFree` | hw3/src/sfmm.c:823-838 | What such a flush takes off the list is free afterwards, alone or inside a bigger block. |
| `SfAnswers.LargeFreed` | hw3/src/sfmm.c:849-866 | A larger freed block is one free block with its free neighbours, first on the main list of that size; quick lists and other blocks stay. |
| `SfAnswers.ReallocAnswer` | hw3/src/sfmm.c:871-951 | A block 32 bytes or more too long keeps its place and gets exactly the needed size, the rest becoming free with what is free behind it; one that fits stays; one too short is answered as by sf_malloc, and freed if that succeeds. |
| `SfAnswers.ReallocSucceedsExactly` | hw3/src/sfmm.c:896-901 | sf_realloc of a nonzero size fails exactly when the block is too short and sf_malloc has nothing to give. |
| `SfMemory.MidUnlink` | hw3/src/sfmm.c:121-139 | Overwriting the links around a listed block takes exactly that block off its circular list, leaves the other nine lists, all headers, footers and live payloads alone. |
| `SfMemory.PushSettle` | hw3/src/sfmm.c:171-196 | Linking a block behind its sentinel completes the representation: all ten rings, the quick lists and all boundary tags stand for the heap again. |
| `SfMemory.FreeSettles` | hw3/src/sfmm.c:728-795 | After the tag writes of a release, inserting the merged block makes memory represent the freed heap, in every neighbour case. |
| `SfMemory.FromQuickSettles` | hw3/src/sfmm.c:245-259 | Popping a quick list by its first link leaves memory representing the heap without that entry. |
| `SfSteps.FirstFitIsFirstWith` | hw3/src/sfmm.c:121-168 | The first block that fits is also the first whose header word equals its own, so removal by header takes that very block. |
| `SfSteps.CoalescePlan` | hw3/src/sfmm.c:728-795 | The words coalesce reads, the unlinkings it makes and the header and footer it writes are those of the block from the lower free end to the upper one. |
| `SfAllocator.Sfmm.SfMalloc` | hw3/src/sfmm.c:373-541 | On the words of memory: the new heap is the specified one, no live payload changes, and errno is set exactly when a nonzero request fails. |
| `SfAllocator.Sfmm.SfFree` | hw3/src/sfmm.c:798-869 | Rejects exactly the pointers that fail validation; otherwise the block goes to its quick list, after a flush if that is full, or coalesced to its main list, and no other live payload changes. |
| `SfAllocator.Sfmm.SfRealloc` | hw3/src/sfmm.c:871-951 | Grows by moving, shrinks in place with or without a split; the first min(old, new) bytes are the old ones, no other live payload changes, and errno is set exactly when a nonzero request fails. |
| `SfAllocator.Sfmm.ValidatePointer` | hw3/src/sfmm.c:544-587 | Accepts exactly the aligned addresses not below the heap whose row before reads as an allocated header of a valid size that ends before the end of memory; among block addresses, exactly those not marked free, quick blocks included. |
| `SfService.Serve` | hw3/include/sfmm.h:103-192 | Any legal series of calls on one allocator makes the specified states and answers, and every payload still held is where the last realloc put it, as far as the narrowest block it has been in goes. |
| `SfAllocator.Sfmm.Coalesce` | hw3/src/sfmm.c:728-795 | In place: unlinks the free neighbours, and one header and footer for the whole. |
| `SfAllocator.Sfmm.GetFromFreeList` | hw3/src/sfmm.c:156-168 | Walks a ring of links to the first block that fits. |
| `SfAllocator.Sfmm.FlushQuickList` | hw3/src/sfmm.c:823-864 | Empties a quick list into the main lists, head first, coalescing each block; live payloads are untouched. |
| `SfAllocator.Sfmm.MallocGrowing` | hw3/src/sfmm.c:477-536 | The growth loop ends with a block that is big enough or with no pages left, and is the specified growth either way. |
| `SfAllocator.Sfmm.InitHeap` | hw3/src/sfmm.c:387-409 | The first call leaves one free block of 4080 bytes, listed in class 7. |
| `SfDepartures.NeighbourUnlinkedExactly` | hw3/src/sfmm.c:121-139 | Asked for a neighbour's header, the source unlinks that neighbour exactly when no block before it on the list has its size and prev-allocated bit. |
| `SfDepartures.FirstFitUnlinked` | hw3/src/sfmm.c:121-168 | For sf_malloc, what is unlinked by header is always the first fit. |
| `SfDepartures.ClearWrittenExactly` | hw3/src/sfmm.c:198-227 | On memory: clearing the next block's bit does what it should inside the heap; for the last block a stray footer is written exactly when the row behind it reads as a free block of another size than eight. |
| `SfDepartures.MergedHeaderExact` | hw3/src/sfmm.c:718-789 | The merged header as written, row behind the last block included, is right exactly when nothing before the block is merged or that starts the heap, and no size is read off that row. |
| `SfDepartures.FreeExactly` | hw3/src/sfmm.c:728-869 | sf_free of a block for the main lists keeps the right block, writes the right header, unlinks the right neighbours and no footer astray exactly when the block below is allocated or starts the heap, no twin is taken for a neighbour, and the row behind the last block does not interfere. |
| `SfDepartures.DocumentedLists` | hw3/src/sfmm.c:728-795 | The unlinkings and the block kept determine the main lists: the documented ones give those of the freed heap. |
| `SfDepartures.CoalesceConserves` | hw3/src/sfmm.c:728-795 | The merged block is as long as the blocks it replaces, and every other block keeps its size. |
| `SfDepartures.EndTestNeverFires` | hw3/src/sfmm.c:718-726 | The test for the end of the heap is never true of a block in it. |
| `SfDepartures.MarkedExact` | hw3/src/sfmm.c:262-282 | The allocation as written tells the next block exactly unless that is the last one. |
| `SfDepartures.FlagAllocatedExact` | hw3/src/sfmm.c:230-312 | A right last-block flag stays right through an allocation exactly unless the last block is taken whole and the row behind it has a size. |
| `SfDepartures.FlagPoppedExact` | hw3/src/sfmm.c:350-371 | A right flag stays right when a quick list is popped exactly unless the block behind is free and ends the heap. |
| `SfDepartures.FlagFreedExact` | hw3/src/sfmm.c:849-866 | Left alone by a free, a right flag stays right exactly unless the block freed ends the heap. |
| `SfDepartures.PageExactly` | hw3/src/sfmm.c:490-528 | Whatever the flag says, a page is joined and listed right exactly when the flag is clear, the last block is free, no earlier block of its list has its header, and the flag bit in its header does not change its class. |
| `SfDepartures.UnlistedPageMissed` | hw3/src/sfmm.c:121-139 | The page that is on no list is looked for in class 8: the sentinel is taken when that is empty, the one block when there is one, and otherwise the walk runs past the end. |
| `SfDepartures.FlaggedClassExact` | hw3/src/sfmm.c:524-528 | The class computed from the flagged word is right unless the flag tips a size over a class limit, listed one by one. |
| `SfDepartures.FirstPageExactly` | hw3/src/sfmm.c:387-406 | The first call writes to rows of a page exactly when it got one; without, it writes to row 0. |
| `SfDepartures.GrowBranchExact` | hw3/src/sfmm.c:896-907 | The comparison of the request with the block size takes the right branch exactly outside the last eight bytes of the block. |
| `SfDepartures.SplitExactly` | hw3/src/sfmm.c:914-951 | What realloc splits off gets the right header, footer, list and unlinking exactly when the next block is free and no earlier block of its list has its header; otherwise it has a header only, and the next block still reads that an allocated one precedes. |
| `SfDepartures.SplitLists` | hw3/src/sfmm.c:934-947 | That unlinking and insertion give the main lists of the shrunk heap. |
| `SfDepartures.OverflowLeavesOne` | hw3/src/sfmm.c:817-845 | A free that overflows a quick list leaves exactly the freed block on it, though the counter stays at five. |
| `SfDepartures.QuickRoundTrip` | hw3/src/sfmm.c:245-371 | Freeing a small block and asking for its size again gives the same block, and the same heap or, when the counter had reached five, the flushed one with a counter of four. |
| `SfDepartures.QuickLifo` | hw3/src/sfmm.c:695-704 | Up to five blocks of one small size, freed one after the other, come back in reverse order and leave the heap as it was. |
| `SfDepartures.DoubleFreeLoops` | hw3/src/sfmm.c:695-704 | Freeing a block that is on its quick list already leaves links from which no finite list can be read. |
| `SfWitnesses.FullGoesWrong` | hw3/src/sfmm.c:718-951 | After sf_malloc(4072): freeing merges a phantom and leaves the flag wrong, a page stays unlisted and the sentinel is taken for it, and a split loses the rest. |
| `SfWitnesses.FirstGoesWrong` | hw3/src/sfmm.c:262-282 | On the fresh page: taking it whole leaves the flag wrong when the row behind it has a size. |
| `SfWitnesses.EdgeGoesWrong` | hw3/src/sfmm.c:498-516 | After sf_malloc(2024): the page is not joined to the free last block of 2048 bytes. |
| `SfWitnesses.QuickGoesWrong` | hw3/src/sfmm.c:350-371 | After sf_malloc(24) and its free: popping the block raises the flag before a free last block. |
| `SfWitnesses.CrowdedGoesWrong` | hw3/src/sfmm.c:728-951 | After six allocations and three frees: freeing drops a status bit and unlinks the wrong one of two free blocks of one size, and shrinking unlinks another wrong one. |
| `SfWitnesses.CrowdedUnmarked` | hw3/src/sfmm.c:262-282 | One call before: an allocation leaves the last block's bit clear. |
| `FindDupLists.Comp1Exact` | hw2/src/finddup.c:271-298 | comp1 orders two files as intended exactly when the first differing field's difference keeps its sign in 32 bits. |
| `FindDupLists.Comp1Cycle` | hw2/src/finddup.c:271-298 | Three checksums that comp1 orders in a circle. |
| `FindDupLists.CheckedKeyed` | hw2/src/finddup.c:303-323 | The neighbour pass of scan1 gives a checksum to exactly the files that share their length with another, so equal contents get equal keys. |
| `FindDupLists.ArrangedIsPermutation` | hw2/src/finddup.c:367-396 | What a sweep of the duplicate scan leaves is a permutation of what it met, flags aside. |
| `FindDupLists.OthersFollow` | hw2/src/finddup.c:367-396 | Among the files passed over, every link still directly follows its inode, and the first is no link. |
| `FindDupScan.SkipIsSound` | hw2/src/finddup.c:375-377 | When the full compare is skipped, the file is the same inode as its predecessor and has the contents of the head. |
| `FindDupScan.SweepTakes` | hw2/src/finddup.c:378-390 | One rotation step, including the adjacent first match that does not advance lastix. |
| `FindDupScan.SweepKeeps` | hw2/src/finddup.c:367-396 | One sweep brings the scan from head to head: flags right so far, earlier classes closed and contiguous, links behind their inodes, keys sorted. |
| `FindDupReport.GroupsPartition` | hw2/src/finddup.c:402-437 | The printed groups are the classes of equal contents: together the whole list, equal inside, different across. |
| `FindDupReport.AnswerPerFile` | hw2/src/finddup.c:402-437 | With links shown, a class prints nothing if it has one file, and otherwise a FILE line for its first name and a DUP line for each other, in order. |
| `FindDupReport.AnswerPerInode` | hw2/src/finddup.c:402-437 | With -l, a class of one inode prints nothing; any other a FILE line for its head and then DUP lines, together one name for each inode, in list order. |
| `FindDupReport.ReportPerFile` | hw2/src/finddup.c:402-437 | The whole report with links: its title if anything is printed, then the lines of the classes in their order. |
| `FindDupReport.ReportPerInode` | hw2/src/finddup.c:402-437 | The same with -l. |
| `FindDupReport.SummaryPerInode` | hw2/src/finddup.c:337-363 | The link summary: its title if anything is printed, then for each inode of several files a FILE line and LINK lines, in order. |
| `FindDupReport.MarkedReps` | hw2/src/finddup.c:337-363 | After link marking every inode has exactly one file that is not a link. |
| `FindDup.Finder.FullCmp` | hw2/src/finddup.c:507-556 | The byte loop returns 0 exactly for equal contents. |
| `FindDup.Finder.Scan1` | hw2/src/finddup.c:303-323 | In place: checksums where lengths meet, and the list sorted by them. |
| `FindDup.Finder.MarkLinks` | hw2/src/finddup.c:337-363 | In place: marks every file with its predecessor's inode and prints the summary of links. |
| `FindDup.Finder.DupScan` | hw2/src/finddup.c:366-397 | In place: from a sorted, marked list to a permutation whose content classes are contiguous and flagged. |
| `FindDup.Finder.Scan3` | hw2/src/finddup.c:402-437 | Prints the report of the groups, heads first. |
| `FindDup.Finder.FindDuplicates` | hw2/src/finddup.c:237-263 | Sort, scan1, scan2 and scan3 together refine the all-pairs comparison, for any checksum that is a function of the contents. |
| `Crc32.Crc32Routine.RcCrc32` | hw2/src/crc32.c:14-45 | The table-driven loop computes the bit-serial CRC, whether or not the table was built before. |
| `Crc32.OctetStep` | hw2/src/crc32.c:40-43 | One table step equals eight bit steps of the division register. |
| `Crc32Laws.CrcResumes` | hw2/src/crc32.c:38-45 | The CRC of a concatenation is the CRC of the second part started with that of the first. |
| `Crc32Laws.CrcIsAffine` | hw2/src/crc32.c:38-45 | Over messages of one length the CRC is affine over XOR. |
| `Crc32Laws.BurstsAreDetected` | hw2/src/crc32.c:38-45 | Two messages that differ only inside a window of at most 32 bits have different CRCs. |
| `Crc32Laws.FourOctetErrorsAreDetected` | hw2/src/crc32.c:38-45 | Any error within four consecutive octets is caught. |
| `Crc32Laws.CheckValue` | hw2/src/crc32.c:14-45 | The CRC of the digits 1 to 9 is 0xcbf43926. |
| `Crc32Division.CrcIsTheRemainder` | hw2/src/crc32.c:14-45 | The register is the remainder of polynomial division by the generator, and nothing else is. |
| `Crc32Division.GeneratorIsStandard` | hw2/src/crc32.c:25-31 | The generator has exactly the powers 32, 26, 23, 22, 16, 12, 11, 10, 8, 7, 5, 4, 2, 1 and 0 of x. |
| `Crc32Division.RemainderUnique` | hw2/src/crc32.c:25-31 | Division by the generator has one remainder. |
| `Goertzel.OutputIsBin` | hw1/src/goertzel.c:26-42 | The recurrence's output, turned back by the last sample's angle, is the bin of the discrete Fourier transform. |
| `Goertzel.StrengthIsEnergy` | hw1/src/goertzel.c:55-78 | Neither the absolute value nor the unit factor D changes the energy. |
| `Goertzel.StrengthExact` | hw1/src/goertzel.c:78-80 | The quotient is 2/N^2 times the energy exactly when N*N fits in 32 bits, or there is no energy and N*N does not wrap to 0. |
| `Goertzel.Filtering.Strength` | hw1/src/goertzel.c:44-81 | The strength after any samples is twice the energy of their bin over the 32-bit N*N. |
| `Goertzel.Strength` | hw1/src/goertzel.c:8-81 | A whole signal: init, N - 1 steps and the strength give 2/N^2 of the bin's energy, with the exact condition. |
| `ClientRegistry.EveryRunIsSafe` | hw5/src/client_registry.c:19-165 | For every schedule of any number of threads: slots and announcements are conserved, the full branch is unreachable, unregister never searches an empty array, one thread inside at a time, wait_for_empty is through only when empty. |
| `ClientRegistry.StepConserves` | hw5/src/csapp.c:514-524 | Every step of every thread conserves pin, cli and mutex against the threads that hold them. |
| `ClientRegistry.StepClients` | hw5/src/client_registry.c:42-88 | A step adds the new client exactly in a register section with room, swap-removes the first client with the descriptor exactly in an unregister section that finds one, and otherwise leaves the clients alone. |
| `ClientRegistry.SwapKeepsOthers` | hw5/src/client_registry.c:82-83 | Swap-removal keeps exactly the other entries. |
| `ClientRegistry.RemovesTheClient` | hw5/src/client_registry.c:66-83 | The entry removed is the client itself exactly when no earlier entry has its descriptor. |
| `ClientRegistry.FrozenForever` | hw5/src/client_registry.c:42-165 | Once a failed call has kept the lock, or a waiter spins on a used registry, no schedule changes the clients or lets anybody past the lock. |
| `ClientRegistry.WhatFreezes` | hw5/src/client_registry.c:42-149 | The steps that do that, exactly: a failing client_create, an unknown descriptor, waiting while clients are registered. |
| `ClientRegistry.FreezingRuns` | hw5/src/client_registry.c:42-149 | Each of the three is reached from creg_init by one thread in a few steps. |
| `ClientRegistry.UnregisterRuns` | hw5/src/client_registry.c:42-88 | A client registered and unregistered is gone and all 64 slots are free again. |
| `ClientRegistry.WaitRuns` | hw5/src/client_registry.c:142-150 | After that a thread that waits for an empty registry gets through. |
| `ClientRegistry.Quiescent` | hw5/src/client_registry.c:42-88 | With all calls returned and none failed, the semaphores mirror the count. |
| `ClientRegistry.Registry.RegisterLocked` | hw5/src/client_registry.c:42-60 | In place: the client at the end of the array, or nothing when it is full or creation failed. |
| `ClientRegistry.Registry.ShutdownLocked` | hw5/src/client_registry.c:157-165 | Shuts down the descriptor of every registered client, in order. |
| `ClientRegistry.Registry.UnregisterLocked` | hw5/src/client_registry.c:66-83 | In place: search and swap-removal. |
| `Rio.ReadN` | hw5/src/csapp.c:533-552 | Short only at the end of the stream, whatever the kernel's short reads and interrupts. |
| `Rio.WriteN` | hw5/src/csapp.c:559-576 | Everything goes out in order, or a proper piece of it and -1. |
| `Rio.Buffered.Read` | hw5/src/csapp.c:589-614 | Takes some of what is pending, in order, refilling the buffer; 0 exactly at the end. |
| `Rio.Buffered.ReadNB` | hw5/src/csapp.c:633-648 | The next n pending bytes, or all that are left. |
| `Rio.Buffered.ReadLineB` | hw5/src/csapp.c:655-677 | The pending line up to its newline or maxlen - 1 bytes, and a zero behind it. |
| `Rio.LineIs` | hw5/src/csapp.c:655-677 | What the length of a line means: no newline but its last byte, and no shorter than it must be. |
| `Rio.NothingLost` | hw5/src/csapp.c:589-677 | For any mix of calls, what they delivered and what is left make up the stream. |
| `Rio.Serve` | hw5/src/csapp.c:589-677 | The buffered reader serves any mix of calls as if it read the stream directly. |
| `Protocol.HeaderRoundTrip` | hw5/include/protocol.h:119-132 | A header written is read back as it was. |
| `Protocol.WireLayout` | hw5/include/protocol.h:112-132 | Type, id and role are bytes 0 to 2, the size bytes 4 and 5, the seconds 8 to 11 and the nanoseconds 12 to 15, all most significant byte first. |
| `Protocol.HeaderLayout` | hw5/src/protocol.c:29-35 | The receiver takes the same bytes for the same fields. |
| `Protocol.RecvPacket` | hw5/src/protocol.c:29-56 | A packet that is all there is taken whole, 256 times byte 4 plus byte 5 of payload, with a zero behind it, and nothing that follows; success and failure are those of the stream. |
| `Protocol.PacketsRoundTrip` | hw5/src/protocol.c:8-57 | From the concatenation of any packets the same packets are received, in order, and nothing of what follows. |
| `Protocol.SendFrames` | hw5/src/protocol.c:8-27 | One send is one packet to the receiver, with the payload given, exactly when it announces no payload or is given one. |
| `Protocol.CutShortExactly` | hw5/src/protocol.c:29-56 | When reception reports success for a packet that is not all there. |
| `Protocol.Transfer` | hw5/src/protocol.c:8-57 | Sent through any short and interrupted writes, received through any short and interrupted reads, packets arrive as they were. |
| `GetOpt.Scanner.Next` | hw2/src/getopt.c:45-87 | One call is the first event of the left-to-right parser, and leaves the parser's rest; the position strictly advances. |
| `GetOpt.Scan` | hw2/src/getopt.c:45-87 | Calls until the first EOF terminate and report the parser's events one by one, letter, result and argument (after an error, the argument before it), and stop at its operands. |
| `GetOpt.TakesArgExactly` | hw2/src/getopt.c:61-69 | A letter takes an argument exactly when a colon follows the first place where it stands in the option string. |
| `GetOpt.LegalExactly` | hw2/src/getopt.c:61 | A letter is an option exactly when it stands in the string and is no colon. |
| `GetOpt.ParseReadsBack` | hw2/src/getopt.c:45-87 | Any options written out, arguments joined to their letter or behind it, are read back as those events, and reading goes on behind them. |
| `GetOpt.ParseStops` | hw2/src/getopt.c:51-76 | Reading stops at an operand or a lone dash, behind "--", and at a last letter whose argument is missing. |
| `GetOpt.SplitExactly` | hw2/src/getopt.c:61-82 | A group may be split behind letters without arguments exactly when neither piece becomes "--". |
| `GetOpt.UngroupedIsSame` | hw2/src/getopt.c:61-82 | -abc gives the same events as -a -b -c. |
| `Player.ExpectedSum` | hw5/src/player.c:66-69 | The two expected scores make up one game, because the integer division truncates symmetrically. |
| `Player.StrongerExpectsMore` | hw5/src/player.c:68-69 | The expected score rises with a player's own rating and falls with the opponent's. |
| `Player.OddsPer400` | hw5/src/player.c:68-69 | 400 points more make the odds ten times longer; a difference of less than 400 counts as none. |
| `Player.EvenGame` | hw5/src/player.c:71-92 | Less than 400 points apart, a win is worth 16 points and a loss or a draw costs 16. |
| `Player.DriftExactly` | hw5/src/player.c:71-92 | A game moves the rating sum by at most one point exactly when it is not a draw; a draw, whose half points are cut to 0, takes 31 to 33 points away. |
| `Player.WinnersAndLosers` | hw5/src/player.c:71-92 | The winner never loses points and the loser never gains any. |
| `Player.SeasonDrift` | hw5/src/player.c:63-94 | Over any series of decided games the sum of all ratings drifts by at most a point a game. |
| `Player.SeasonNeverRises` | hw5/src/player.c:63-94 | While no rating is negative, the sum never rises. |
| `Player.PostResult` | hw5/src/player.c:63-94 | In place: the two ratings become the specified ones. |
| `Audio.FileRoundTrip` | hw1/src/audio.c:6-150 | A header and samples written are read back. |
| `Audio.HeaderLayout` | hw1/src/audio.c:97-102 | The six numbers are at offsets 0, 4, 8, 12, 16 and 20, most significant byte first. |
| `Audio.ValidExactly` | hw1/src/audio.c:79-96 | The headers accepted begin with ".snd" and have the encoding, rate and channels of the format as bytes 12 to 23. |
| `Audio.SampleLayout` | hw1/src/audio.c:121-150 | A sample is two's complement, the more significant byte first, written and read. |
| `Audio.SamplesRoundTrip` | hw1/src/audio.c:121-150 | All 16-bit samples survive, negative ones and 0xFF bytes included. |
| `Audio.BytesRoundTrip` | hw1/src/audio.c:121-150 | Writing what was read gives the same bytes exactly when their number is even: a single last byte is taken for a sample. |
| `Audio.AnnotationExactly` | hw1/src/audio.c:6-72 | Reading samples right behind the header gives the file's samples exactly when the data offset is 24. |
| `Audio.ReadHeader` | hw1/src/audio.c:6-72 | The accumulating byte loop reads the six numbers, accepts exactly valid headers, and stops behind byte 24. |
| `Audio.ReadSample` | hw1/src/audio.c:121-138 | One sample off the stream, most significant byte first; the end of the file in its second byte makes one more sample. |
| `Audio.WriteSample` | hw1/src/audio.c:140-150 | The two bytes of a sample, sign included. |
| `Audio.WriteHeader` | hw1/src/audio.c:74-119 | Writes the 24 bytes of a valid header and nothing for any other. |

## Left out

- SfAllocator.Sfmm.SfFree: a pointer to the payload of a block already on a quick list, or into the middle of a block, is excluded (`Freeable`); validation may accept either, and freeing it breaks the heap.
- SfAllocator.Sfmm.ValidatePointer: an address beyond the rows of memory is rejected, where the source would fault.
- SfDepartures.FreeExactly: the functions as written describe one call on a well-formed heap; what later calls make of a heap that has gone wrong is not followed, and a removal that runs past its list is only named.
- SfDepartures.DoubleFreeLoops: the second free of a block whose list has a counter of five, which flushes first, is not modelled.
- SfService.Serve: the client's own writes into its payloads between the calls are not part of the series.
- SfAllocator.Sfmm.SfRealloc: has the same limit on its pointer; a request of 0 frees the block.
- SfRuns.EveryRunIsSafe: a client frees and resizes only pointers it holds.
- SfAllocator.Sfmm.CopyPayload: `memcpy` copies whole rows; a payload row is one number, not eight bytes.
- FindDup.Finder.Sort: `qsort` is any sorting permutation in the intended order; with the narrowed order of `comp1` some lists have no sorted order at all (`Comp1Cycle`).
- FindDup.Finder.FindDuplicates: file contents, lengths and inodes are given and stay as `lstat` saw them; reading the list of names, growing the array, and opening files is not modelled.
- Rio.Buffered.ReadLineB: the line counter is a C `int`; lengths beyond its range are not modelled.
- ClientRegistry.EveryRunIsSafe: the sections under the mutex are one step each; `creg_lookup` and `creg_all_players`, which read without the lock, and reference counts are not modelled, and nothing is claimed about progress.
- Goertzel.Strength: cosine and sine are any functions with cos^2 + sin^2 = 1, B is twice the cosine, and there is no rounding.
- Player.PostResult: powers of ten are exact reals and ratings unbounded; one player against himself waits for ever on his own lock.
- Audio.ReadHeader: the accumulator is unbounded, where the source shifts a C `int` that overflows for numbers of 2^31 and more.
- GetOpt.Scanner.Next: the messages on standard error are not modelled, and characters are not signed, so no option letter can look like the end of the options.
- Protocol.RecvPacket: storage that a failed reception has allocated is not tracked; the padding of the header struct is three bytes, as on common platforms.
- `hw1/src/dtmf.c`: option parsing, tone generation from text, and the detection loop.
- `hw4`: processes, pipes, signals and log files.
- `hw5/src/client.c`, `invitation.c`, `server.c`, `main.c`: the game server around the registry; the game library is not part of this model.
- `sf_memalign`, which the header declares and the source does not define; the printing and debugging functions everywhere.
