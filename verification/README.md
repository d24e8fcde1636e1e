# Models of MUSE, SUSE and SAC

Dafny models of the four services' cores, with proofs. `dafny verify dfyconfig.toml` checks them.

**MUSE**, the paged heap (memoria/main_memory.c), is proved in three layers.
`HeapSpec` is the allocator on a list of blocks: first fit, split, growth, release, compaction.
`Blocks` and `FlatMemory` put that list into bytes, with packed 5-byte headers, and the bytes into pages.
`PageStore`, `ClockPolicy` and the class `Paging.Pager` are frames, swap slots, bitmaps and the modified clock.
`SegmentHeap`, `HeapRequests` and the class `Muse.Muse` run the walks, header stores and requests on the paged memory, and show that each request does to the flat bytes what the list allocator says, whatever is evicted on the way.
`HeapRuns` draws the conclusions for whole runs, `MuseRuns` serves lists of requests of several programs and ties each to a step of those runs, and `MuseClient` puts three requests together as a program does. `Floats` is the float arithmetic of a segment's growth.

**SUSE**, the scheduler (planificador/suse.c): `SuseState` has the transitions and the invariant, `SuseRuns`, `SuseAccounts` and `SuseBlocked` the requests as atomic steps and what every interleaving keeps, `SuseTimes` the times executed and `SuseOrder` the order of the queues, both read off the requests of a run, and the class `Suse.Suse` the handlers that update threads, queues and semaphores in place, each tied to a step.

**SAC**, the file system (filesystem/sac_handlers.c): `SacTree` is directory removal, `SacFiles` and `SacState` files as two-level indexes of disjoint blocks, the class `Sac.Sac` the operations in place, `SacCounts` what becomes of the blocks of deleted files, `SacRuns` lists of requests.

**The wire codec** (utils_suse/message.c): `WireFormat` is the format with its round trips, `WireLayout` says where each byte is, `Messages` the cursors that write and read it.

Where the code departs from its intent the models keep the code and state exactly when it does what it should: `PageStore.Store.FetchBreaks`, `HeapSpec.CountsIff`, `HeapSpec.GrowthExceedsIff`, `SegmentHeap.StoreHeaderAsCoded`, `HeapSpec.RunAsCodedIff`, `SuseState.Sys.LeavingTightIff`, `SuseBlocked.StepExactIff`, `SacFiles.ReadAcrossIff`, `Sac.Sac.WriteFile`, `SacState.ReturnedIff`, `Sac.Sac.Create`, `SacTree.TableMustStartAtTwo`.

## Model

| member | source | states |
|---|---|---|
| `ClockPolicy.ChooseSucceeds` | memoria/main_memory.c:305-375 | the victim search ends within the partial first sweep and three full ones if and only if some page is present; the victim is present and its U bit is 0 when it is taken |
| `ClockPolicy.ChooseByClass` | memoria/main_memory.c:305-375 | which page is the victim, without sweeps: the first unused clean page from the hand on, else the first unused modified one, else the first clean one, else the first present one |
| `ClockPolicy.ChosenIff` | memoria/main_memory.c:305-375 | no other page has that description |
| `ClockPolicy.UsedIs` | memoria/main_memory.c:305-375 | the U bits afterwards, without sweeps: as they were when an unused clean page comes from the hand on; else lost by the present pages before the first unused modified one; lost by all of them when there is none |
| `ClockPolicy.UsedIsSpared` | memoria/main_memory.c:305-375 | a page in use is not chosen while some present page is unused and modified, or unused and clean from the hand on |
| `Paging.Pager.Sweep` | memoria/main_memory.c:305-375 | one sweep over the page tables finds what a scan of their concatenation finds, and clears exactly the U bits of the present pages passed in a sweep for (0,1) |
| `Paging.Pager.FindVictim` | memoria/main_memory.c:305-375 | the sweeps, with the hand at a segment and a page, end with the victim that the policy chooses, at most four of them |
| `Paging.Pager.ReplaceFrame` | memoria/main_memory.c:305-375 | the victim is evicted, its frame returned and the hand left on it, so that the next search starts just after |
| `PageStore.Store.ReplaceMovesOne` | memoria/main_memory.c:305-405 | a replacement moves exactly one present page out of memory, and only if the swap has a free slot; no M bit changes, U bits are only cleared, no other page moves |
| `PageStore.Store.ReplaceKeeps` | memoria/main_memory.c:305-429 | with a free slot, a replacement keeps exclusive ownership of frames and slots and the bytes of every page |
| `PageStore.Store.EvictKeeps` | memoria/main_memory.c:378-429 | eviction with a free swap slot keeps exclusive ownership and changes the bytes of no page |
| `PageStore.Store.EvictBreaks` | memoria/main_memory.c:395-405 | with a full swap the frame is freed while its page stays present: the bitmap no longer says who owns what |
| `PageStore.Store.AcquireKeeps` | memoria/main_memory.c:252-282 | a new page disturbs no other when a frame or a slot is free |
| `PageStore.Store.AcquireBreaks` | memoria/main_memory.c:252-282 | and two pages share a frame when neither is |
| `PageStore.Store.FetchKeeps` | memoria/main_memory.c:1165-1227 | bringing a page in keeps ownership and changes the bytes of no page when it was present or a frame or slot was free |
| `PageStore.Store.FetchBreaks` | memoria/main_memory.c:1165-1227 | and two pages share a frame when it was absent and neither was free |
| `PageStore.Store.TakesIff` | memoria/main_memory.c:305-405 | when bringing one page in takes the frame of another, by the pages' bits |
| `PageStore.TakenFit` | memoria/main_memory.c:252-282 | of the pages taken one after the other exactly as many as there were free frames and slots get a place of their own |
| `PageStore.Store.FetchModified` | memoria/main_memory.c:1165-1227 | bringing a page in changes no M bit |
| `PageStore.Store.FetchExactly` | memoria/main_memory.c:1165-1227 | a page brought in has its U bit set and its M bit as it was, and is in the lowest free frame or else in that of the page that the bits choose; that page is in the lowest free slot, and hand and U bits are as the clock leaves them |
| `PageStore.Store.AcquireExactly` | memoria/main_memory.c:252-282 | so is a new page, unmodified |
| `PageStore.Store.WriteKeeps` | memoria/main_memory.c:1402-1407 | a write through the frame of a present page changes that page only |
| `PageStore.Store.Conservation` | memoria/main_memory.c:194-234 | free frames + free slots + pages = TOTAL_FRAME_NUM + TOTAL_FRAME_NUM_SWAP, always |
| `PageStore.Store.RoomIsSpare` | memoria/main_memory.c:194-234 | a frame or a slot is free if and only if there are fewer pages than frames and slots |
| `Paging.Pager.CountFree` | memoria/main_memory.c:194-234 | counts the bits that are set |
| `Paging.Pager.TakeSwapSlot` | memoria/main_memory.c:431-446 | takes the lowest free swap slot, or -1 when there is none |
| `Paging.Pager.Evict` | memoria/main_memory.c:378-429 | the victim goes to the lowest free slot and its frame is freed; with a full swap only the bitmap changes |
| `Paging.Pager.FindFrame` | memoria/main_memory.c:252-282 | the lowest free frame, or the one that the clock frees |
| `Paging.Pager.NewPage` | memoria/main_memory.c:252-282 | a page with a frame of its own, present, used and unmodified; the pager stays valid if and only if a frame or slot was free, and then the other pages keep their bytes |
| `Paging.Pager.BringIn` | memoria/main_memory.c:1165-1227 | the swapped bytes are in a frame again, the slot is released and the U bit set |
| `Paging.Pager.FetchFrame` | memoria/main_memory.c:1165-1227 | the pager stays valid if and only if the page was present or a frame or slot was free; then no logical byte changes, and a page that was absent is present and used, in the lowest free frame or that of the chosen page; no M bit changes |
| `Paging.Pager.UsedStays` | memoria/main_memory.c:305-375 | so a page just fetched is not the next to leave while some present page is unused and modified, or unused and clean from the hand on |
| `Paging.Pager.WriteFrame` | memoria/main_memory.c:1402-1407 | writing through a frame pointer changes the bytes of the page that has the frame and of no other |
| `Paging.Pager.AddPage` | memoria/main_memory.c:853-862 | a new page at the end of a page table, present, used and unmodified, changes the bytes of no existing page, whatever is evicted for it |
| `FlatMemory.FlatPage` | memoria/main_memory.c:521-540 | a logical address is a byte of page address / PAGE_SIZE |
| `FlatMemory.FlatWrite` | memoria/main_memory.c:1402-1407 | writing into one page is writing at its place in the flat bytes, and nowhere else |
| `FlatMemory.FlatGrow` | memoria/main_memory.c:853-862 | new pages only add bytes after the existing ones |
| `Blocks.HeaderRoundTrip` | memoria/main_memory.h:45-49 | the five packed bytes give size and flag back |
| `Blocks.HeaderBytes` | memoria/main_memory.h:45-49 | byte by byte: the size, lowest byte first, and then 1 for a free block and 0 for one in use |
| `Blocks.HeaderIsBytes` | memoria/main_memory.h:45-49 | a header is there if and only if four bytes say its size and the fifth is nonzero exactly when the block is free |
| `Blocks.PutThenGet` | memoria/main_memory.c:465-583 | a header stored at any address reads back |
| `Blocks.PutElsewhere` | memoria/main_memory.c:465-516 | storing a header changes no byte outside its five |
| `Blocks.TilingUnique` | memoria/main_memory.c:518-602 | the bytes of a segment determine its blocks: a walk by size + 5 can only see this list |
| `Blocks.PutCovering` | memoria/main_memory.c:1012-1080 | rewriting one header so that its block covers several keeps the headers tiling the segment |
| `Blocks.PutSplit` | memoria/main_memory.c:789-806 | the two headers that an allocation writes split the block and keep the tiling |
| `SegmentHeap.LoadPage` | memoria/main_memory.c:521-530 | a page of the segment, brought in when absent, with the bytes of the flat memory |
| `SegmentHeap.LoadHeader` | memoria/main_memory.c:518-583 | the header at a logical address, also when it is split between two pages, with no logical byte changed |
| `SegmentHeap.StoreHeader` | memoria/main_memory.c:465-516 | the repaired order, first part written before the second page is loaded: exactly the header changes, at every offset |
| `SegmentHeap.StoreHeaderAsCoded` | memoria/main_memory.c:480-504 | as coded, the header is stored exactly if and only if loading the second page does not take the frame of the first |
| `SegmentHeap.MisplacedReads` | memoria/main_memory.c:480-504 | what is left otherwise: the header reads back if and only if its first part was there already, and the bytes a page further on have become that first part |
| `SegmentHeap.OneFrameLoses` | memoria/main_memory.c:480-504 | with a single frame that load always takes the first page's frame |
| `HeapSpec.SearchIsFirstFit` | memoria/main_memory.c:604-644 | under the heap invariant the search is first fit, although it ignores is_free on a lone block and never tests the last but one |
| `HeapSpec.NormalUnique` | memoria/main_memory.c:1012-1080 | where the blocks in use are fixed, only one list of blocks tiles the segment without two adjacent free ones |
| `HeapSpec.CompactIsNormal` | memoria/main_memory.c:1012-1080 | with the guard, compaction gives exactly that list: every maximal run of free blocks is one block and nothing else has changed |
| `HeapSpec.CompactShape` | memoria/main_memory.c:1012-1080 | compaction, as coded too, keeps the tiling of the segment |
| `HeapSpec.CompactSeparates` | memoria/main_memory.c:1012-1108 | as coded too, no two adjacent free blocks are left |
| `HeapSpec.CompactUsed` | memoria/main_memory.c:1012-1080 | as coded, every header in use keeps its address and never shrinks; with the guard the blocks in use stay exactly as they are |
| `HeapSpec.CompactAsCodedIff` | memoria/main_memory.c:673-697 | the coded compaction is the intended one if and only if no block in use comes right before a trailing free one |
| `HeapSpec.CompactAsCodedLast` | memoria/main_memory.c:673-697 | otherwise that block in use becomes the last one, up to the end of the segment |
| `HeapSpec.GrowthSuffices` | memoria/main_memory.c:843-948 | growth adds at least one page and makes the search of the retry succeed |
| `HeapSpec.GrowthExceedsIff` | memoria/main_memory.c:713-718 | a request that passes the capacity check asks for more pages than there are free frames and slots if and only if it is a first one that leaves no room for the second header |
| `HeapSpec.GrowthTakesLast` | memoria/main_memory.c:828-965 | a request whose growth leaves no frame or slot to spare fails in the retry, with the segment lengthened all the same |
| `Floats.QuotientIsExact` | memoria/main_memory.c:843 | the page count, a float rounded up, is the exact ceiling for up to 2^24 bytes |
| `Floats.GrowthIsExact` | memoria/main_memory.c:843-846 | page count and new size are exact as long as the block that grows ends up with at most 2^24 bytes |
| `Floats.PagesMoreIff` | memoria/main_memory.c:843 | for every number of bytes, and pages of a power of two, the page count is the exact ceiling unless the bytes as a float fill whole pages and are fewer than the bytes, or a page or more too many |
| `Floats.LengthenedIff` | memoria/main_memory.c:846 | for exact terms, the sum is exact if and only if a float holds it |
| `Floats.OneByteTooMany` | memoria/main_memory.c:843-846 | 3 bytes and 4096 pages of 4096: one byte too many is stored |
| `HeapSpec.SmallCounts` | memoria/main_memory.c:843-846 | a segment's growth comes out exactly as long as its last block ends up with at most 2^24 bytes |
| `HeapSpec.CountsIff` | memoria/main_memory.c:843-846 | beyond, with pages of a power of two and terms that floats hold, if and only if the bytes lacking are not rounded to a page end on the wrong side and a float holds the sum |
| `HeapSpec.StoredTilesIff` | memoria/main_memory.c:846 | the headers of the lengthened segment tile it if and only if the size stored is exact |
| `HeapSpec.FloatBreaksTiling` | memoria/main_memory.c:843-846 | for that input they do not |
| `HeapSpec.AllocateKeeps` | memoria/main_memory.c:789-806 | an allocation adds one live block of the requested size, apart from all the others, and keeps the invariant |
| `HeapSpec.ReleaseKeeps` | memoria/main_memory.c:1110-1144 | freeing removes exactly that block from the live ones and keeps the invariant (guarded compaction) |
| `HeapSpec.ReleaseAsCodedIff` | memoria/main_memory.c:673-697 | as coded, freeing keeps the heap invariant if and only if the block freed is the one right before the trailing free block; otherwise the next growth takes the last block from its owner |
| `HeapSpec.LiveApart` | memoria/main_memory.c:708-976 | any two live allocations are disjoint and inside the segment |
| `HeapSpec.MallocKeeps` | memoria/main_memory.c:708-976 | a successful request adds exactly one live block, disjoint from all older ones; a failed one none; the invariant and the accounting hold |
| `HeapSpec.MallocExactly` | memoria/main_memory.c:708-976 | a request fails if and only if it asks with its header for more bytes than are free in all, or no free block is large enough and it asks for more than growth has left; otherwise it gets the lowest block that is large enough; growth adds the fewest pages that will do |
| `HeapSpec.RunKeeps` | memoria/main_memory.c:708-1144 | after every run of malloc and free: headers tile the segment, the last block is free, no two free blocks are adjacent, using_memory is the sum of the live sizes |
| `HeapSpec.RunAsCodedIff` | memoria/main_memory.c:673-1144 | a run of the allocator as coded keeps the heap in order throughout if and only if every free is of the block right before the trailing free one; it is then the run with the guard |
| `HeapSpec.LiveUntilFreed` | memoria/main_memory.c:708-1144 | a live allocation keeps address and size until it is freed |
| `SegmentHeap.LastHeader` | memoria/main_memory.c:585-602 | the walk ends at the last block |
| `SegmentHeap.FindFit` | memoria/main_memory.c:604-644 | the walk over in-band headers finds what the list search finds, or -1 |
| `SegmentHeap.FindFree` | memoria/main_memory.c:673-697 | likewise for the search for a free block, as coded and guarded |
| `SegmentHeap.Absorb` | memoria/main_memory.c:1025-1048 | two stored headers join a free block to the one before it; no payload byte in use changes |
| `SegmentHeap.CompactFrom` | memoria/main_memory.c:1012-1080 | compaction terminates, leaves the headers of the compacted list in memory and changes no byte of a payload in use |
| `SegmentHeap.CompactSegment` | memoria/main_memory.c:1082-1108 | the same for the whole segment |
| `HeapRequests.AllocateAt` | memoria/main_memory.c:770-814 | the split of the list happens in the bytes, and no live payload changes |
| `HeapRequests.Extend` | memoria/main_memory.c:853-862 | new pages lengthen the segment and change none of its bytes |
| `HeapRequests.GrowHeap` | memoria/main_memory.c:833-873 | computed in floats as in the source, where they give the exact numbers: the last block takes the new bytes; no live payload changes, whatever is evicted meanwhile |
| `HeapRequests.FirstHeap` | memoria/main_memory.c:921-965 | a first segment is one free block |
| `HeapRequests.FreeAt` | memoria/main_memory.c:1126-1139 | the header is marked and the list compacted in the bytes, with the freed size returned |
| `HeapRequests.ReadPages` | memoria/main_memory.c:1376-1385 | a run of pages is copied out, however many are absent |
| `HeapRequests.GetAt` | memoria/main_memory.c:1906-1941 | exactly the bytes asked for, across pages that have been swapped |
| `HeapRequests.WritePages` | memoria/main_memory.c:1402-1407 | the buffer goes back page by page and nothing else changes; exactly these pages become modified |
| `HeapRequests.PagesToCopy` | memoria/main_memory.c:1347-1373 | the pages that hold the payload and, when it starts in an earlier page, its header |
| `HeapRequests.CopyAt` | memoria/main_memory.c:1347-1441 | the bytes are written if and only if the header before them is that of a block in use of at least that size; no other byte changes, and the M bits set are those of the pages with these bytes or that header |
| `Muse.Muse.SearchProgram` | memoria/main_memory.c:130-141 | the index of the program, or -1 when it is not in the list |
| `Muse.Muse.FindSegment` | memoria/main_memory.c:1153-1163 | the first segment that has the address, its limit included, or -1 |
| `Muse.Muse.CanLengthen` | memoria/main_memory.c:699-706 | always true of the only segment of a program, so that lines 870 to 921 are never reached |
| `Muse.Muse.SegmentWithSpace` | memoria/main_memory.c:978-1010 | a segment is found if and only if a free block is large enough |
| `Muse.Muse.RoomCounted` | memoria/main_memory.c:194-234 | what the bitmaps count as free is what the pages leave |
| `Muse.Muse.CountRoom` | memoria/main_memory.c:194-234 | number_of_free_frames is that number |
| `Muse.Muse.GrowAndRetry` | memoria/main_memory.c:828-965 | growth and one retry, which finds space unless its capacity check stops it |
| `Muse.Muse.MemoryMalloc` | memoria/main_memory.c:708-976 | on paged memory, a request that leaves a frame or slot to spare gives the result, blocks and pages of the list allocator. It returns 0xFFFFFFFF if and only if it and its header need more than all that is free, or no free block holds them and they need more than the room left afterwards; otherwise it takes the lowest block that holds them; the pages added are the fewest that will do. No live payload byte, no other program and no M bit changes; it calls itself at most once |
| `Muse.Muse.MemoryFree` | memoria/main_memory.c:1110-1144 | on paged memory, memory_free is the list release; the other live payloads and programs are unchanged |
| `Muse.Muse.MemoryCpy` | memoria/main_memory.c:1293-1442 | to the start of a block: -3, -1 or exactly the bytes at dst change, headers and other programs included in what does not; exactly the pages of these bytes and of the header before them become modified |
| `Muse.Muse.MemoryGet` | memoria/main_memory.c:1843-1942 | -3, -4 or exactly the bytes of the heap, which does not change |
| `HeapRuns.ValidHeaps` | memoria/main_memory.c:708-1144 | between requests every heap satisfies the invariant and using_memory is the sum of its live sizes |
| `HeapRuns.Survives` | memoria/main_memory.c:708-1442 | over every run, a live allocation that is neither freed nor written keeps place, size and bytes, wherever its pages have been |
| `HeapRuns.ReadsAsLastWritten` | memoria/main_memory.c:1293-1942 | what memory_cpy wrote is what memory_get returns after any run that neither frees nor rewrites the block |
| `MuseRuns.Serve` | memoria/main_memory.c:708-1942 | any of the four requests, of any program, is a step of that program's heap in the sense of the runs, and no step of another's; its result, and the bytes of a memory_get, are those that the heap gives |
| `MuseRuns.ServeAll` | memoria/main_memory.c:708-1942 | any list of requests of any programs is a run, with the result of every request |
| `MuseRuns.RunSpares` | memoria/main_memory.c:708-1942 | a live block that no request of a run frees or writes keeps place, size and bytes |
| `MuseRuns.CopyServeGet` | memoria/main_memory.c:1293-1942 | on paged memory, memory_cpy, then any list of requests of any programs that leaves the block alone, then memory_get: the bytes that were copied come back |
| `MuseClient.Allocated` | memoria/main_memory.c:708-976 | the block that a successful request adds is in the list, inside the heap and apart from every live block |
| `MuseClient.AllocCopyGet` | tests/memoria_test_alloc.c:13-18 | muse_alloc, muse_cpy and muse_get one after the other give the bytes back, if and only if the allocation succeeded |
| `SuseState.AverageIsWeighted` | planificador/suse.c:907-912 | the recursive estimate is the alpha-weighted sum over the burst history |
| `SuseState.AverageBounds` | planificador/suse.c:907-912 | for alpha in [0, 1] it lies between 0 and the longest burst |
| `SuseState.DropEnumerates` | planificador/suse.c:1362-1418 | removal by condition takes exactly one thread from a list without duplicates |
| `SuseState.Sys.NewToReadyKeeps` | planificador/suse.c:1389-1407 | making a new thread ready below the limit keeps the invariant |
| `SuseState.Sys.NewToExecKeeps` | planificador/suse.c:1211-1234 | a new thread starting to execute keeps the invariant |
| `SuseState.Sys.ExecToReadyKeeps` | planificador/suse.c:1236-1254 | yielding keeps the invariant |
| `SuseState.Sys.DispatchKeeps` | planificador/suse.c:848-889 | dispatching keeps the invariant, bursts folded once included |
| `SuseState.Sys.DispatchesShortest` | planificador/suse.c:896-937 | the thread dispatched has the least estimate of all ready threads of its process |
| `SuseState.Sys.WaitKeeps` | planificador/suse.c:1052-1078 | a wait keeps the invariant |
| `SuseState.Sys.SignalKeeps` | planificador/suse.c:996-1050 | a signal keeps the invariant |
| `SuseState.Sys.JoinKeeps` | planificador/suse.c:490-517 | a join keeps the invariant, joinTo and joinedBy mirrored |
| `SuseState.Sys.UnjoinAllKeeps` | planificador/suse.c:721-771 | releasing the joiners one by one keeps the invariant and changes no other thread |
| `SuseState.Sys.LeavingKeeps` | planificador/suse.c:615-719 | closing a READY or executing thread keeps the invariant; its joiners go to READY, or to NEW at the limit; nobody else moves |
| `SuseState.Sys.LeavingTightIff` | planificador/suse.c:759-766 | a close loses no place of ACTUAL_MULTIPROG if and only if there was one to spare or nobody had joined the thread |
| `SuseState.Sys.AddThreadKeeps` | planificador/suse.c:591-613 | a new thread keeps the invariant |
| `SuseState.Sys.AddProcessKeeps` | planificador/suse.c:796-805 | a new process keeps the invariant |
| `SuseRuns.StepKeeps` | planificador/suse.c:436-1078 | every request keeps the whole invariant |
| `SuseRuns.RunKeeps` | planificador/suse.c:396-1418 | every interleaving keeps it: at most ACTUAL_MULTIPROG <= MAX_MULTIPROG threads are READY, EXECUTE or BLOCKED, the queues are exact and without duplicates, EXEC_THREAD is the only executing thread of its process, semaforoReady is the length of the READY_LIST |
| `SuseRuns.InitialKeeps` | planificador/suse.c:278-320 | it holds at the start |
| `SuseAccounts.Recorded` | planificador/suse.c:996-1078 | what a semaphore records is what happened in the run: signals accepted, waits, who had to wait and who was woken, in order |
| `SuseAccounts.SemaphoreAccounts` | planificador/suse.c:996-1078 | in every run VALUE = INIT + accepted signals - waits <= MAX, the BLOCKED_LIST has max(0, -VALUE) threads, and those who had to wait are, in order, those woken and then those still blocked |
| `SuseRuns.SignalWakesFirst` | planificador/suse.c:996-1050 | an accepted signal wakes exactly the thread that has waited longest, a refused one changes nothing |
| `SuseRuns.JoinersAre` | planificador/suse.c:490-517 | in every run joinedBy of a live thread lists exactly the threads whose joinTo it is |
| `SuseRuns.BlockedFor` | planificador/suse.c:490-517 | in every run a thread is blocked if and only if it waits for one live thread or at a semaphore, never both |
| `SuseRuns.CloseReleases` | planificador/suse.c:721-771 | a close releases exactly the threads that had joined, and no other blocked thread |
| `SuseTimes.BurstsAreTimes` | planificador/suse.c:848-912 | in every run a thread's bursts are the differences, in order, between the clock of the request that started it (the creation of its process, or suse_schedule_next) and that of the request that stopped it (the next suse_schedule_next of its process, a wait at VALUE <= 0, or a join) |
| `SuseTimes.EstimateIsAverage` | planificador/suse.c:848-912 | in every run whoever executes has had each of those times folded exactly once; the estimate of a live thread lies between 0 and the longest |
| `SuseTimes.NextIsShortest` | planificador/suse.c:896-937 | in every run the thread that suse_schedule_next starts has the least weighted average of the times executed among the ready threads of its process |
| `SuseOrder.CreationOrder` | planificador/suse.c:591-613 | a created thread is put last in new_queue and stays there if and only if MAX_MULTIPROG has been reached |
| `SuseOrder.JoinedInOrder` | planificador/suse.c:490-517 | in every run joinedBy lists the threads that have joined, in the order of the joins |
| `SuseOrder.QueuesInOrder` | planificador/suse.c:591-785 | in every run new_queue lists the NEW threads in the order in which they last became NEW, by creation or by release at the limit, and exit_queue those closed in the order of closing |
| `SuseOrder.CloseAdmitsFirst` | planificador/suse.c:721-785 | so a close that admits takes the thread that became NEW first; joiners released at the limit follow the others in the order in which they joined |
| `SuseBlocked.LeavingExactIff` | planificador/suse.c:734-771 | a close keeps blocked_queue exact if and only if there was a place to spare in ACTUAL_MULTIPROG or nobody had joined the thread |
| `SuseBlocked.StepExactIff` | planificador/suse.c:436-1078 | every other step keeps it exact |
| `SuseBlocked.RunExact` | planificador/suse.c:436-1078 | so in every run without such a close blocked_queue lists exactly the BLOCKED threads, each once |
| `Suse.Suse.EstimateReady` | planificador/suse.c:896-912 | every ready thread is estimated once, nobody else |
| `Suse.Suse.SortBySjf` | planificador/suse.c:914-937 | a permutation of the ready threads in the order of funcion_SJF |
| `Suse.Suse.Create` | planificador/suse.c:519-613 | is the creation step of the runs: the first thread of a process executes, later ones are made ready, each only below the limit, and otherwise it is the last of new_queue (`SuseOrder.CreationOrder`) |
| `Suse.Suse.Next` | planificador/suse.c:808-889 | is the dispatch step at the clock of the request |
| `Suse.Suse.Wait` | planificador/suse.c:940-964 | is the wait step at the clock of the request, or nothing for an unknown semaphore |
| `Suse.Suse.Signal` | planificador/suse.c:966-1050 | is the signal step; at MAX nothing happens |
| `Suse.Suse.Join` | planificador/suse.c:490-517 | is the join step at the clock of the request; nothing happens when no thread executes or none has that tid |
| `Suse.Suse.Close` | planificador/suse.c:615-719 | is the close step, admission of the longest waiting new thread included |
| `Suse.Suse.Unjoin` | planificador/suse.c:734-771 | a joiner goes to READY, or at the limit to NEW with its place in ACTUAL_MULTIPROG kept |
| `Suse.Suse.AdmitNext` | planificador/suse.c:773-785 | the longest waiting new thread is made ready |
| `SacFiles.AddedLinked` | filesystem/sac_handlers.c:760-816 | one more block, with its pointer block when one is needed, adds exactly that block's bytes to the file |
| `SacFiles.WrittenAtEnd` | filesystem/sac_handlers.c:901-926 | writing where the file ends, in its last block, appends |
| `SacFiles.FileFrame` | filesystem/sac_handlers.c:645-717 | what happens to other blocks does not change a file |
| `SacFiles.ReadChunk` | filesystem/sac_handlers.c:671-708 | where the bytes of one block are in the file |
| `SacFiles.FoundAt` | filesystem/sac_handlers.c:671-708 | the block found through the j-th pointer of the i-th pointer block is the file's for that place and has its bytes |
| `SacFiles.OnDisk` | filesystem/sac_handlers.c:671-708 | where a file is, byte by byte: block k is numbered by the k % 1024-th word, lowest byte first, of the k / 1024-th pointer block, and has the file's bytes from 4096 k on |
| `SacFiles.AppendedFits` | filesystem/sac_handlers.c:864-886 | what has been written fitted the free blocks, and what was refused would not have |
| `Sac.Sac.GetFreeBlock` | filesystem/sac_handlers.c:719-741 | the lowest unused block of the data area, marked, or -1 if and only if there is none |
| `Sac.Sac.CountFree` | filesystem/sac_handlers.c:743-758 | the number of unused blocks of the data area |
| `SacFiles.PlaceOf` | filesystem/sac_handlers.c:271-277 | setear_posicion gives the place of an offset below 2^31; at 2^31 the index is -512 |
| `Sac.Sac.NextPointers` | filesystem/sac_handlers.c:783-799 | a new pointer block and the mark after it, in the index or, when that is negative, in that of the node before |
| `Sac.Sac.AddBlock` | filesystem/sac_handlers.c:760-816 | a file below 2^31 bytes gets the block; it fails, with nothing changed, only when a pointer block is needed and none is free; a file of 2^31 bytes does not get it, and the index of the node before is overwritten |
| `Sac.Sac.Locate` | filesystem/sac_handlers.c:892-898 | the data block at an offset below 2^31 |
| `SacFiles.OneByteMore` | filesystem/sac_handlers.c:271-277 | one byte more for a file of 2^31 bytes is lost if and only if two blocks are free |
| `SacFiles.LostIsUnreadable` | filesystem/sac_handlers.c:783-799 | what such a write leaves is no file, whatever is taken for its blocks |
| `Sac.Sac.Write` | filesystem/sac_handlers.c:818-939 | at the end of the file: -EFBIG from the limit on, else the bytes are appended, all of them if and only if the free blocks suffice, as many as fit otherwise, with no block left free; blocks of others are untouched; exactly when the file would pass 2^31 bytes and there are blocks for that the round writes outside its index |
| `SacFiles.ReadInPlace` | filesystem/sac_handlers.c:645-717 | from a block boundary or inside one block, what leer_archivo returns are the file's bytes at that offset |
| `SacFiles.ReadAcrossIff` | filesystem/sac_handlers.c:696-708 | elsewhere they are if and only if the disk's next block begins like the file's next one and the bytes after that repeat themselves |
| `Sac.Sac.Read` | filesystem/sac_handlers.c:645-717 | at any offset: up to the end of the file, first as much as a block's length from that place of the disk, then the bytes from the file's next block on |
| `Sac.Sac.ReadFile` | filesystem/sac_handlers.c:645-717 | the same of a file of the whole system; from a block boundary or inside one block the bytes that are stored |
| `SacFiles.RoomFits` | filesystem/sac_handlers.c:760-816 | a file fits so many blocks, its pointer blocks included, if and only if it is no larger than Room |
| `SacFiles.WrittenExactly` | filesystem/sac_handlers.c:818-939 | size and result of an append follow from size, count and free blocks: it takes the bytes for which there is room, and when that is not all of them one block is lost and -1 returned if and only if file and free blocks together are one more than a multiple of 1025, else -ENOSPC |
| `Sac.Sac.WriteFile` | filesystem/sac_handlers.c:818-939 | new size and result are those; the file system stays in order, with every other file's bytes as they were, if and only if the write does not pass 2^31 bytes or the blocks run out before |
| `Sac.Sac.Create` | filesystem/sac_handlers.c:508-589 | the first deleted node becomes the file or directory, EDQUOT if and only if there is none; the file system stays in order if and only if a new file found two free blocks |
| `Sac.Sac.DeleteContents` | filesystem/sac_handlers.c:378-422 | exactly which bits are cleared |
| `SacState.ReturnedIff` | filesystem/sac_handlers.c:378-422 | they are exactly the file's blocks if and only if it is not empty, has less than 2^31 bytes and does not end with its pointer block |
| `Sac.Sac.DeleteFile` | filesystem/sac_handlers.c:424-449 | the node and its bytes go, no other file changes, only its blocks are given back |
| `Sac.Sac.RemoveDirectory` | filesystem/sac_handlers.c:451-472 | terminates; exactly the node and the live nodes below it are deleted, the blocks of their files and no others are given back, every other file keeps its bytes |
| `SacTree.ScanEnds` | filesystem/sac_handlers.c:456-471 | when the scan is over everything below the directory has been deleted and nothing else |
| `SacTree.ScanDirectory` | filesystem/sac_handlers.c:463-466 | removing a child directory recursively deletes only what is below the target |
| `SacTree.DeletedCount` | filesystem/sac_handlers.c:430-431 | each deletion lowers the number of live nodes, which bounds the recursion |
| `SacTree.ReachedIsUnder` | filesystem/sac_handlers.c:459-467 | when no file has children, what is removed is all that parent links reach |
| `SacTree.TableMustStartAtTwo` | filesystem/sac_handlers.c:460 | with the node table anywhere but at block 2 a child survives its directory |
| `SacRuns.ValidIsGood` | filesystem/sac_handlers.c:424-589 | the files that are stored are the live nodes of type file |
| `SacRuns.Serve` | filesystem/sac_handlers.c:424-939 | every admissible request is carried out, with the result that the state gives it: a creation in the lowest deleted node, an append of the bytes for which there is room, a deletion, a directory removal; nothing happens if and only if the request is not admissible |
| `SacRuns.ServeAll` | filesystem/sac_handlers.c:424-939 | any list of requests is such a run |
| `SacRuns.RequestDetermines` | filesystem/sac_handlers.c:424-939 | table, bytes and free blocks determine what a request returns and does and the next table, bytes and free blocks |
| `SacRuns.RunDetermined` | filesystem/sac_handlers.c:424-939 | and so do those at the start for every list of requests |
| `SacRuns.WrittenIsAsked` | filesystem/sac_handlers.c:818-939 | in a run whose appends to a file all returned their count, exactly the bytes asked for have been written, in order |
| `SacRuns.HoldsWhatWasWritten` | filesystem/sac_handlers.c:424-939 | over every run a file that is not deleted holds what it held and then all that was written to it, in order |
| `SacRuns.ServeAndRead` | filesystem/sac_handlers.c:424-939 | after any list of requests, a file that none of them has deleted reads as that; when its appends all returned their count, as what it held and all the bytes asked for |
| `SacCounts.DeletionsCounted` | filesystem/sac_handlers.c:378-472 | whatever is deleted, free blocks and the live files' blocks are as many as before, less both blocks of each empty file deleted and all but one of each file of 2^31 bytes |
| `SacRuns.BlocksConserved` | filesystem/sac_handlers.c:424-939 | over every run the free blocks, the live files' blocks and those lost on the way (by these deletions, and one by each append that returns -1) add up to the same number |
| `WireFormat.NumberRoundTrip` | utils_suse/message.c:112-116 | the first bytes of a little-endian number give it back when it fits them |
| `WireFormat.ArgRoundTrip` | utils_suse/message.c:103-176 | an argument decodes to itself whatever follows |
| `WireFormat.ArgsRoundTrip` | utils_suse/message.c:178-233 | so does a list of arguments |
| `WireFormat.RoundTrip` | utils_suse/message.c:60-101 | decode(encode(m)) = m for every well-formed message, with as many bytes consumed as produced, whatever follows |
| `WireFormat.Canonical` | utils_suse/message.c:81-101 | only the encoding of a message decodes to it |
| `WireFormat.StreamSplits` | utils_suse/network.c:137-155 | a concatenation of messages is cut by its headers into exactly these messages |
| `WireFormat.StreamInjective` | utils_suse/network.c:137-155 | different lists of messages are different streams |
| `WireLayout.MessageLaid` | utils_suse/message.c:25-85 | a message byte by byte: kind at 0, caller_id at 1-2, data_size at 3-6, lowest bytes first; then the function code at 7, the argument count at 8 and, argument by argument, its type, its size in four bytes and its bytes; or the response's word at 7 |
| `WireLayout.HeaderRead` | utils_suse/message.c:43-58 | a header read from any bytes says what these bytes say, at those places |
| `WireLayout.FunctionRead` | utils_suse/message.c:134-233 | and so does a function with its arguments |
| `Messages.DataSize` | filesystem/sac_handlers.c:4-14 | tamDataFunction is the number of bytes the encoder writes after the header |
| `Messages.PutHeader` | utils_suse/message.c:25-41 | seven bytes are written, kind, caller_id and data_size at their places, lowest bytes first, or none and -1 |
| `Messages.PutArg` | utils_suse/message.c:103-132 | exactly the argument's bytes are written at the cursor: type, size in four bytes, value |
| `Messages.PutFunction` | utils_suse/message.c:178-198 | exactly the function's bytes are written, or none and -1 |
| `Messages.EncodeMessage` | utils_suse/message.c:60-85 | what is written and returned for each message type, byte by byte, and -1 with nothing written when the buffer is too small |
| `Messages.GetHeader` | utils_suse/message.c:43-58 | the header is what the seven bytes say, each at its place |
| `Messages.GetArg` | utils_suse/message.c:134-176 | the argument at the front of the buffer, -1 if and only if its type is unknown |
| `Messages.GetFunction` | utils_suse/message.c:200-233 | the loop reads what the list of arguments parses to |
| `Messages.DecodeMessage` | utils_suse/message.c:87-101 | the message at the front of the buffer, byte by byte, and its length; unknown types are refused |
| `Messages.SendAndReceive` | utils_suse/message.c:60-101 | encoding into a buffer and decoding it gives the message back, 7 + tamDataFunction bytes sent and taken |
| `Messages.ReceivePacket` | utils_suse/network.c:137-155 | takes exactly the first message of the stream |

## Left out

- Programs have at most one segment, a heap segment at base 0: `memory_map`, `memory_sync`, `memory_unmap` and `obtener_data_marco_mmap` rest on the operating system's mmap. The base 0 that the last branch of `memory_malloc` uses after an mmap segment (memoria/main_memory.c:937) is therefore not seen, and lines 870 to 921 are unreachable (`Muse.Muse.CanLengthen`).
- Muse.Muse.MemoryFree: uses `proxima_metadata_libre` guarded by `is_free` on the last but one block; for the code as it is `HeapSpec.ReleaseAsCodedIff` says exactly when the invariant survives. `SegmentHeap.CompactSegment` covers both forms. The address must be that of a live block: the source does not check it.
- SegmentHeap.StoreHeader: writes the first part of a split header before the second page is loaded; the coded order is `SegmentHeap.StoreHeaderAsCoded`, with the exact condition.
- Muse.Muse.MemoryMalloc: needs a frame or swap slot to spare after it (`HeapSpec.Affordable`), since with none left an absent page comes to share a frame (`PageStore.Store.FetchBreaks`); which requests get that far is `HeapSpec.GrowthExceedsIff` and `PageStore.TakenFit`, and what the list allocator makes of them `HeapSpec.GrowthTakesLast`. A segment is lengthened only when the source's float arithmetic gives the exact page count and size (`HeapSpec.Counts`), which `HeapSpec.SmallCounts` and `HeapSpec.CountsIff` characterise; otherwise `HeapSpec.StoredTilesIff` says what becomes of the headers. A request with `size <= 0` returns with mutex_lock held (memoria/main_memory.c:712), so that in the source the next `memory_malloc` waits for ever. One request per program at a time: the source drops its lock before it retries.
- Muse.Muse.constructor: memory and swap together are smaller than 2^31 bytes, so that addresses and the capacity check's product fit an int, a page has at least 4 bytes and process ids fit 16 bits. The fixed sizes of the arrays BITMAP (140) and BITMAP_SWAP_FILE (2048), which also keep the page counts that `memory_cpy` compares as floats exact, are not modelled.
- Muse.Muse.MemoryCpy: `dst` is the start of a block and the bytes end inside the segment; the source looks for a header right before any `dst`. A program that `memory_cpy` creates starts with `using_memory` 0, which the source leaves unset there.
- Muse.Muse.MemoryGet: returns 0 where the source returns the pointer `dst`.
- The header walks done for the log, metrics, and disconnection of a client.
- SUSE handlers are atomic steps; mutexes, and the early returns that leave one locked, are not modelled. `obtener_proximo_ejecutar` is enabled when a thread of the process executes or is ready, which is when its `sem_wait` returns.
- Suse.Suse.Close: only for READY and executing threads other than tid 0. Closing a NEW or BLOCKED thread locks a mutex twice (planificador/suse.c:665-676), and tid 0 tears the process down.
- SuseRuns.RunKeeps: assumes that tids are unique among a process's threads, that waits and joins come from the executing thread, and that the clock does not go back. Of blocked_queue the invariant says only that the BLOCKED threads are in it; `SuseBlocked.StepExactIff` says exactly when it holds others too.
- Suse.Suse.SortBySjf: stands for `list_sort`, of which only that it sorts is used. Times are reals, not doubles; waiting and CPU times for the metrics are left out.
- Sac.Sac.Write: appends at the end of the file, from a block boundary or with less than a block; overwrites, sparse and unaligned larger writes do not behave uniformly in the source. After a round that wrote outside the file's index, what the source does with bytes that are left is not modelled; for the first node, what is before it in place of a node (the bitmap's last block) is not either. The mutexes per path and the timestamps are left out.
- Sac.Sac.Read: when the first bytes copied run past the end of a data block (filesystem/sac_handlers.c:696-708), that block is not the last of the disk; past the mapping nothing is known. Line 678 indexes the pointer block with a block number, a value that is not used but lies past the mapping for a pointer block at the very end of a large disk.
- Sac.Sac.Create: the parent is a parameter; paths, names, sibling checks, rename, lookup and the root's special cases are left out, and a new file needs one free block, since without any the source writes before the disk.
- Sac.Sac.GetFreeBlock: the bitmap has whole blocks of bits (filesystem/sac_servidor.c:74), more than the disk has blocks; those beyond are taken to be set, since a clear one would be handed out as a block past the end of the disk. Without a free block `get_bloque_vacio` returns -1 with s_bitmap held (filesystem/sac_handlers.c:729-731).
- Sac.Sac.AddBlock: when it fails, `agregar_nodo` returns with s_tablaDeNodos held as well (filesystem/sac_handlers.c:785), so that in the source the next request that takes either mutex waits for ever; the runs go on.
- Sac.Sac.RemoveDirectory: the target is live. As in the source, the two blocks of an empty file are not given back.
- SacRuns.Serve: refuses exactly the requests outside these domains (`SacRuns.Admissible`), as a caller would have to, and a new file when fewer than two blocks are free.
- Truncation (`truncar_archivo`, `get_new_space`, `delete_nodes_upto`), listing and attributes.
- WireFormat.RoundTrip: at most nine arguments of known types, the data size set to what the data takes. A number has at most as many bytes as its type and fits them. An unknown argument type moves the decoder's cursor back by one, which is modelled for one argument (`Messages.GetArg`) but not for what follows it.
- Messages.DecodeMessage: a buffer that does not hold a whole message of known argument types is not decoded; the source reads past its end.
- Messages.ReceivePacket: what the socket will deliver is a parameter; `receive_packet` with its fixed buffer, short reads and handshakes are left out.
- Callers that set the data size to the size of a C struct instead of `tamDataFunction` (libs/libMuse/libmuse.c:47) are outside the codec's domain.
