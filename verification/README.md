# jsOS in Dafny

A model of the parts of jsOS, a small NT-style kernel, that keep real state, with proofs
of what the kernel relies on them for: the job mailbox between processors, the memory
manager, the heaps, the packet machinery of the I/O manager, and the arithmetic and file
formats of its runtime. `dafny verify dfyconfig.toml` checks everything.

| file | what it models |
|---|---|
| `Doubles.dfy` | JavaScript numbers that are integers: rounding to 53 significant bits |
| `Physical.dfy` | physical memory as 32-bit words, 64-bit accesses as two halves |
| `Mailbox.dfy`, `MailboxProgress.dfy` | the SMP job protocol as interleaved single memory accesses of the BSP and the APs; how soon jobs are done and calls return |
| `Pfn.dfy`, `Paging.dfy`, `VirtualMemory.dfy` | frame bitmap, four-level page tables in flat memory, VirtualAlloc and VirtualFree |
| `BlockList.dfy`, `Kmalloc.dfy`, `GuestHeap.dfy` | address-ordered block lists; the kernel heap; the aligned guest heap |
| `Lookaside.dfy` | the bounded cache of free blocks above a pool |
| `DeviceQueue.dfy` | the intrusive sorted IRP queue and one-at-a-time StartIo, with re-entrant callbacks |
| `IrpStack.dfy` | stack locations: the descent of a request and its completion, stopped and resumed |
| `NtfsRecord.dfy`, `NtfsData.dfy` | NTFS file records (writer and reader), run lists, file data |
| `CivilTime.dfy` | day numbers and dates, `time` and `gmtime_r` |
| `LongDivision.dfy` | 128-bit division |
| `Numbers.dfy`, `SubjectSequence.dfy` | number printing into a bounded buffer, and `strtoull`; what the C standard asks of it |

Objects the kernel updates in place are classes; what their methods do is stated with
functions on values, and the properties are lemmas about those functions and about runs.
A run is arbitrary: any interleaving for the mailbox, any sequence of requests for the
allocators, any nesting of calls for the device queue and the stack locations.

Where the code and its documentation disagree, the model follows the code and a lemma says
exactly when the documented property holds:

- A job pointer is stored as two halves, "last, as a release". This is safe exactly for
  pointers that do not have two nonzero halves (`Mailbox.ExactIffNotTorn`); between the
  two stores the AP would otherwise call the low half (`Mailbox.TornPointerMisfires`).
- A job with a null pointer is accepted and blocks its slot for good
  (`Mailbox.NullJobBlocksSlot`).
- Page tables are edited with 32-bit operators on numbers that are stored modulo 2^64 and
  read back as doubles. Splitting a large page keeps the translations exactly if it lies
  below 2 GB, and a page is mapped as asked exactly if it and a large page split for it do
  (`Paging.SplitKeepsMeaning`, `Paging.MapsIff`, `Paging.UnmapsIff`).
- A range given back twice is accepted and stands among the free ranges twice, which are
  then no longer apart from each other (`VirtualMemory.AddressSpace.Free`).
- The documented memory layout (system32/ntos/mm/memory-map.js:16-17) ends the kernel
  heap where the frame arena begins; `kmalloc_init` extends it to the top of the RAM. Some
  request is handed out bytes of the arena exactly if the RAM reaches beyond its start,
  and over a whole run no live block is if it does not (`Kmalloc.HeapMeetsFrameArena`,
  `Kmalloc.Serve`, `Kmalloc.SixtyFourMegabytesReachFrames`). The header comment of
  kmalloc.c also names 16 MB as the start of the heap; the constant is 32 MB.
- Rounding a request up to 16 bytes wraps around for the 15 largest sizes
  (`Kmalloc.RoundUpCovers`).
- The guest heap hands out an aligned address exactly if the sum that is rounded stays
  below 2 GB and the alignment is at least 32 or the block happens to be aligned
  (`GuestHeap.AlignedIff`); an alignment of 2 GB is missed (`GuestHeap.TwoGigabytesAreMissed`).
  Clearing stores whole words; it leaves all headers as they are exactly if it ends before
  the next block or the bytes it takes from that block's size are 0
  (`GuestHeap.ClearingIsSafeIff`). Thirteen cleared bytes of a fresh arena destroy the header
  behind them (`GuestHeap.ThirteenBytesHarm`).
- The bound on the lookaside cache rests on counters of 32 bits; it is kept exactly while
  they have wrapped around equally often, or few blocks are out (`Lookaside.List.Free`).
- A packet that already waits must not be submitted again: the insertion leaves a circle
  of all packets exactly if the packet is new (`DeviceQueue.InsertIffNew`).
- The locations of a request form a walk exactly if every completion routine that does not
  ask for more processing leaves the current location alone (`IrpStack.WalksIffLawful`,
  with a counterexample in `IrpStack.TwiceWithoutTheRule`, where a routine runs twice after
  one descent).
- In C the years are ints. A date survives the way through its day number exactly if it is
  not among the lowest 399 March-based years of an int, and broken-down time is right
  exactly from the year INT_MIN + 1900 to the year INT_MAX (`CivilTime.CivilDateRoundTrip`,
  `CivilTime.CivilRoundTrip`, `CivilTime.GmTimeRoundTrip`, `CivilTime.ClockRoundTrip`); January
  of the year after INT_MAX overflows (`CivilTime.JanuaryAfterIntMax`). `tm_yday` is always 0
  and so right on 1 January only (`CivilTime.YearDayIsRightOnJanuaryFirst`).
- A record read back shows its attributes as they were given exactly if none has the type
  that marks the end and all sizes are doubles (`NtfsRecord.RecordRoundTrip`).
- The numbers of a run list are accumulated in doubles. One is read as it was written
  exactly if its bytes, unsigned, have at most 53 significant bits (`NtfsData.SignedIff`),
  which up to 6 bytes they always have; -1 in 7 bytes or more is read as 0
  (`NtfsData.MinusOneIsLost`). A run list is read as it was meant exactly if the rounding
  shows in none of its runs (`NtfsData.ParsesRunList`, `NtfsData.FileRoundTrip`).
- Zeros are padded in front of a minus sign, and such a number does not parse back
  (`Numbers.RoundTrip`, an equivalence).
- `strtoull` has the value and the end that section 7.22.1.4 of the C11 standard asks for
  exactly under a condition on the text (`SubjectSequence.C11Iff`): not after `0x` without a
  digit and without a minus, not behind spaces or a plus without digits, and not with an
  overflow that does not happen to give the largest value.

## Model

| member | source | states |
|---|---|---|
| Mailbox.RunsAreExact | system32/ntos/ke/smp.js:244-255 | in every interleaving each AP makes exactly the accepted calls, once each, in order, with their own pointer and arguments, and every answer given after an accepted job is that job's result as a JavaScript number: the result itself below 2^53, else the nearest double |
| Mailbox.NextKeeps | boot/aptrampoline.asm:114-130 | every single memory access of either side keeps the protocol invariant of every slot |
| Mailbox.RunKeeps | boot/aptrampoline.asm:114-130 | so does every run |
| Mailbox.InitialInv | boot/aptrampoline.asm:108-111 | slots that just came online satisfy it |
| Mailbox.ApServes | boot/aptrampoline.asm:120-130 | an AP that has taken a job goes on until DONE is set, and what it calls is the accepted job |
| Mailbox.ReleaseLo | system32/ntos/ke/smp.js:48-51 | after the first half of the pointer store the AP sees no pointer or the whole pointer |
| Mailbox.ReleaseHi | system32/ntos/ke/smp.js:48-51 | the second half completes the pointer or rewrites a 0, however far the AP has got |
| Mailbox.ArgumentsAreNotInUse | system32/ntos/ke/smp.js:248-252 | while the BSP stores arguments no step of the AP changes anything: it only polls |
| Mailbox.AcceptedJobRuns | system32/ntos/ke/smp.js:244-255 | once startJob has returned true a job with a nonzero pointer has been run after at most seven accesses of its AP |
| MailboxProgress.JobIsFinished | boot/aptrampoline.asm:114-130 | from every reachable state with a job with a pointer in the hands of its AP, after at most nine accesses of the AP DONE is 1, FUNC is 0, RES holds what the call of this job returned, and the AP polls, whatever else happens in between |
| MailboxProgress.WaitJobAnswers | system32/ntos/ke/smp.js:258-265 | a BSP that waits for a finished job appends exactly one answer, with the result of that job, at its third access |
| MailboxProgress.FinishedSlotAccepts | system32/ntos/ke/smp.js:236-247 | a BSP that waits to post to a finished slot, or one that had no job yet, accepts at its next access |
| MailboxProgress.StartJobReturns | system32/ntos/ke/smp.js:244-255 | and startJob has returned after twelve, with the job accepted once |
| MailboxProgress.PostedIsInHand | system32/ntos/ke/smp.js:253-254 | then a job with a pointer is in the hands of the AP or finished already |
| MailboxProgress.FreshSlotIsFinished | boot/aptrampoline.asm:108-111 | slots that just came online are open for a first job |
| Mailbox.NullJobBlocksSlot | system32/ntos/ke/smp.js:244-255 | an accepted null job is never run and the slot never becomes free again |
| Mailbox.NullJobIsReached | system32/ntos/ke/smp.js:236-256 | from every initial state a run leads to such a null job while its AP polls |
| Mailbox.StepIsChannelStep | system32/ntos/ke/smp.js:236-265 | every step is a step of a one-place channel, or invisible |
| Mailbox.SlotsAreIndependent | system32/ntos/ke/smp.js:234-234 | what one slot goes through in a run of N slots is a run of a machine with that slot alone |
| Mailbox.OwnMachine | system32/ntos/ke/smp.js:234-234 | such a machine exists for every slot of every state, and is an initial one if the whole machine is |
| Mailbox.RecordsApart | system32/ntos/ke/smp.js:234-234 | the slot records lie behind one another from 0xA100 on |
| Mailbox.TimeoutMeans | system32/ntos/ke/smp.js:236-241 | a wait may time out at any moment, which changes nothing else |
| Mailbox.TornPointerMisfires | system32/ntos/ke/smp.js:48-51 | for every pointer with two nonzero halves there is a run in which the AP calls the low half |
| Mailbox.ExactIffNotTorn | system32/ntos/ke/smp.js:253-253 | all runs posting a pointer are exact if and only if it does not have two nonzero halves |
| Physical.WriteRead64 | system32/ntos/mm/paging.js:19-25 | a 64-bit value survives its two 32-bit stores and loads, and no other word changes |
| Doubles.RoundIff | system32/ntos/fs/ntfs.js:14-20 | rounding changes exactly the numbers of more than 53 significant bits, and gives a number of at most 53 |
| Paging.NegativeIsAbsent | system32/ntos/mm/paging.js:19-25 | a negative number stored as an entry is read back, rounded, without its present bit |
| Pfn.FrameBitmap.constructor | system32/ntos/mm/pfn.js:16-18 | initially every frame is free |
| Pfn.FrameBitmap.AllocPage | system32/ntos/mm/pfn.js:24-32 | the lowest free frame is handed out and only it becomes used; 0 exactly if none is free |
| Pfn.FrameBitmap.FreePage | system32/ntos/mm/pfn.js:34-39 | accepts exactly the arena's frame addresses, after which that frame and no other is free |
| Pfn.FrameBitmap.FreeCount | system32/ntos/mm/pfn.js:41-45 | the number of free frames |
| Pfn.CountAfterUpdate | system32/ntos/mm/pfn.js:24-45 | taking and giving back a frame change the free count by one each |
| Paging.OffWalk | system32/ntos/mm/paging.js:63-74 | a store that the walk of an address does not meet leaves its translation alone |
| Paging.WalkRoles | system32/ntos/mm/paging.js:38-60 | in a well-formed tree every walk goes through tables of its own branch only |
| Paging.LinkEmptyTable | system32/ntos/mm/paging.js:43-46 | linking a zeroed frame for a missing level changes no translation and keeps the tree |
| Paging.SplitKeepsMeaning | system32/ntos/mm/paging.js:78-93 | replacing a 2 MB entry by a table of its 512 pages gives every address the same translation if and only if the large page lies below 2 GB |
| Paging.SplitMeans | system32/ntos/mm/paging.js:78-93 | below 2 GB no translation changes; at or above, the addresses of the large page lose theirs and no other changes; the tree stays well-formed |
| Paging.LeafStore | system32/ntos/mm/paging.js:115-121 | a leaf store retranslates the addresses of one page and no others |
| Paging.MapsIff | system32/ntos/mm/paging.js:114-121 | with `pa` and flags stored, exactly this page translates to the page of `pa` (or to nothing without the present flag) if and only if a large page split for it lies below 2 GB and so does a present `pa` |
| Paging.LeafEntryBits | system32/ntos/mm/paging.js:118-118 | below 2 GB the entry stored has the address bits of `pa` and exactly the flags |
| Paging.OtherLeavesStay | system32/ntos/mm/paging.js:115-129 | the leaf entries of all other pages stay |
| Paging.StaysWritable | system32/ntos/mm/paging.js:43-92 | if all present entries of the tables have their write bit, they have it after a page with the write bit was mapped, with the levels made and the pages split off on the way |
| Paging.UnmapsIff | system32/ntos/mm/paging.js:123-129 | storing 0 takes away the translation of this page and no other if and only if a large page split for it lies below 2 GB |
| Paging.PagesApart | system32/ntos/mm/paging.js:27-30 | page addresses are on the same page only if equal: the four indices determine the address |
| Paging.PageTables.ZeroFrame | system32/ntos/mm/paging.js:32-34 | 512 zero entries, nothing else written |
| Paging.PageTables.FillWithPages | system32/ntos/mm/paging.js:88-89 | 512 entries for the pages of the large page, whatever its address, nothing else written |
| Paging.PageTables.AddTable | system32/ntos/mm/paging.js:43-46 | a fresh zeroed frame becomes the table below an entry, 0 exactly if no frame is free |
| Paging.PageTables.Descend | system32/ntos/mm/paging.js:41-48 | the table below an entry, made if missing and wanted; 0 exactly if it is missing and not wanted or no frame is free |
| Paging.PageTables.FindPdEntry | system32/ntos/mm/paging.js:38-60 | the entry's address, creating missing levels from fresh frames without changing a translation |
| Paging.PageTables.SplitLargePage | system32/ntos/mm/paging.js:78-93 | the entry becomes a table in a frame that was free; every translation stays if and only if the page lies below 2 GB, else exactly its addresses lose theirs; new present entries have just the present and the write bit |
| Paging.PageTables.EnsurePageTable | system32/ntos/mm/paging.js:96-112 | the page table of the address, made or split off, with no other effect on translations than that of the split, and no change to the entries of page tables; new present entries have just the present and the write bit; it fails only if fewer than three frames are free |
| Paging.PageTables.MapPage | system32/ntos/mm/paging.js:115-121 | what every address translates to afterwards; this page to the page of `pa` and every other as before if and only if no page at or above 2 GB is concerned; the leaf entry read back has the address of `pa` and the flags, and no other leaf entry changes; on false every translation is as before |
| Paging.PageTables.UnmapPage | system32/ntos/mm/paging.js:123-129 | afterwards the addresses of this page translate to nothing, and every other as before if and only if no large page at or above 2 GB was split |
| Paging.BootIsWellFormed | boot/stage2.asm:192-211 | the boot tables are a well-formed tree without arena frames that maps the first 2 GB to itself, in large pages that can be split, with the write bit in every entry |
| VirtualMemory.FindRange | system32/ntos/mm/virtual-memory.js:25-25 | the first free range of exactly the wanted number of pages |
| VirtualMemory.PagesCover | system32/ntos/mm/virtual-memory.js:22-22 | the pages hold the bytes asked for and less than a page more |
| VirtualMemory.ByteOfPage | system32/ntos/mm/paging.js:63-74 | every byte of a mapped page is translated to the byte of its frame |
| VirtualMemory.AddressSpace.Reserve | system32/ntos/mm/virtual-memory.js:22-33 | a range in the window, apart from every live and free one, or 0 if neither list nor window has one |
| VirtualMemory.AddressSpace.BackPage | system32/ntos/mm/virtual-memory.js:34-36 | a page gets a frame nobody had and no other page changes |
| VirtualMemory.AddressSpace.UnbackPage | system32/ntos/mm/virtual-memory.js:39-40 | a page loses its frame, which is free again, and no other page changes |
| VirtualMemory.AddressSpace.MapRange | system32/ntos/mm/virtual-memory.js:34-45 | all pages of the range are backed, or the rollback restores what there was |
| VirtualMemory.AddressSpace.Alloc | system32/ntos/mm/virtual-memory.js:21-46 | a new live range with fresh frames: every byte of it is mapped to the byte of the frame of its page, and no page without such a byte is taken; or 0 with every live range and frame as before; it succeeds whenever the window has room and four frames per page are free |
| VirtualMemory.AddressSpace.LiveIsBacked | system32/ntos/mm/virtual-memory.js:21-46 | as long as a range is live, every byte of it stays mapped to its frame |
| VirtualMemory.AddressSpace.Free | system32/ntos/mm/virtual-memory.js:48-58 | of a live range exactly the pages are unmapped, no byte of it is translated any more and its frames are free, every other live page keeps its frame; a range without mapped pages is only put among the free ones, which keeps the ranges apart if and only if it is apart from all, so never for one given back twice |
| VirtualMemory.AddressSpace.ValidIsSeparate | system32/ntos/mm/virtual-memory.js:21-58 | live ranges lie in the window and apart, every live page has its own frame in a leaf entry that is present and writable, as are the entries above it, and no frame is both a data page and a page table |
| VirtualMemory.Serve | system32/ntos/mm/virtual-memory.js:21-58 | this holds after every run of allocations, failed or not, and matching frees; every byte that is held is mapped, and no two allocations of nonzero size share one |
| VirtualMemory.GrantsApart | system32/ntos/mm/virtual-memory.js:21-58 | the bytes of two allocations that are held are apart |
| BlockList.Accounting | hal/mm/kmalloc.c:21-28 | used bytes, free bytes, headers and gaps add up to the region |
| BlockList.AddressOrder | hal/mm/kmalloc.c:58-93 | later blocks of the list lie behind earlier ones, inside the region, on 16-byte boundaries |
| BlockList.BlocksApart | hal/mm/kmalloc.c:58-93 | no two blocks share a byte |
| Kmalloc.RoundUpCovers | hal/mm/kmalloc.c:60-60 | the rounded size covers the request if and only if the addition does not wrap |
| Kmalloc.Heap.constructor | hal/mm/kmalloc.c:48-56 | one free block from HEAP_START to the top; a heap if and only if the RAM reaches beyond the first header |
| Kmalloc.Heap.FindFit | hal/mm/kmalloc.c:61-77 | the first free block that is large enough |
| Kmalloc.Heap.Malloc | hal/mm/kmalloc.c:58-79 | 0 exactly if no block suits, when every free block is smaller than the rounded request; else the first that does is taken, split if 48 bytes are over, and the pointer is 16-byte aligned |
| Kmalloc.Heap.Kfree | hal/mm/kmalloc.c:81-93 | the block becomes free and is joined with the next one if that is free |
| Kmalloc.TakeKeepsTiles | hal/mm/kmalloc.c:62-73 | an allocation keeps the heap tiled without gap or overlap and accounts for the bytes taken |
| Kmalloc.ReleaseKeepsTiles | hal/mm/kmalloc.c:84-92 | so does a release |
| Kmalloc.TilesMeans | hal/mm/kmalloc.c:58-93 | in a tiled heap data areas are at least a header apart and all bytes are accounted for |
| Kmalloc.TakeMakesLive | hal/mm/kmalloc.c:62-74 | an allocation makes exactly one block live, of at least the size wanted |
| Kmalloc.TakenSize | hal/mm/kmalloc.c:62-72 | the piece has the bytes wanted and less than 48 more; what is split off is free, lies behind it and has at least 16 bytes |
| Kmalloc.LittleIsWasted | hal/mm/kmalloc.c:60-72 | a live block exceeds its request by less than 63 bytes, unless the rounding wraps |
| Kmalloc.TakeMeans | hal/mm/kmalloc.c:62-72 | an allocation exchanges one block and leaves the others |
| Kmalloc.ReleaseMeans | hal/mm/kmalloc.c:84-92 | a released block is free, joined with the next one and its header exactly if that is free, and the others stay |
| Kmalloc.ReleaseEndsLive | hal/mm/kmalloc.c:84-92 | a release ends exactly one live block |
| Kmalloc.FreedHeader | hal/mm/kmalloc.c:88-92 | the test for contiguity never fails, and the header left is that of the joined block |
| Kmalloc.TakenStores | hal/mm/kmalloc.c:63-72 | the header stores of an allocation leave the headers of the new list |
| Kmalloc.ReleasedStores | hal/mm/kmalloc.c:84-92 | and so does the header store of a release |
| Kmalloc.Serve | hal/mm/kmalloc.c:58-98 | over any run the held pointers are the live blocks, used plus free plus 32 for each block but one is heap_total, and none lies over the frame arena if the RAM ends before it |
| Kmalloc.TakeKeepsPrefix | hal/mm/kmalloc.c:58-79 | an allocation on a heap of used blocks and one free tail comes from the tail |
| Kmalloc.ReleaseKeepsPrefix | hal/mm/kmalloc.c:81-93 | freeing the last used block joins it with the tail |
| Kmalloc.EmptyPrefixIsInitial | hal/mm/kmalloc.c:48-56 | without used blocks such a heap is the initial one |
| Kmalloc.ServeStack | hal/mm/kmalloc.c:81-93 | every last-in-first-out run from a fresh heap keeps that shape, and freeing everything brings the initial heap back |
| Kmalloc.HeapMeetsFrameArena | hal/mm/kmalloc.c:45-51 | on a fresh heap some request is handed out bytes of the frame arena if and only if the RAM reaches beyond its start |
| Kmalloc.NoBlockOverFrames | hal/mm/kmalloc.c:45-51 | if it does not, no live block of any heap state lies over the arena |
| Kmalloc.DataMissesHeaders | hal/mm/kmalloc.c:58-93 | no byte of the data of a block is a byte of any header |
| Kmalloc.SixtyFourMegabytesReachFrames | hal/mm/kmalloc.c:45-51 | with 256 MB one request for 64 MB is given bytes of the arena |
| GuestHeap.AlignedIff | system32/win32/guest-memory.js:53-66 | the address handed out is aligned if and only if the rounded sum stays below 2 GB and the alignment is at least 32 or the data is aligned already, for every power of two, doubles above 2^53 included |
| GuestHeap.AlignUpMeans | system32/win32/guest-memory.js:54-54 | the rounding, on doubles and then on 32 bits, is the next multiple if the sum stays below 2 GB, and not positive otherwise, or below 2 GB for alignments above 2^53 |
| GuestHeap.TwoGigabytesAreMissed | system32/win32/guest-memory.js:53-59 | an alignment of 2 GB is answered with an unaligned piece |
| GuestHeap.NothingIsMaskedAbove | system32/win32/guest-memory.js:54-55 | an alignment of 2^54 looks for no padding, because 1 less is the same double |
| GuestHeap.BlockWritten | system32/win32/guest-memory.js:15-22 | a header store is read back and disturbs no other header |
| GuestHeap.PlaceKeepsTiles | system32/win32/guest-memory.js:60-80 | an allocation of any size and alignment keeps the arena tiled; a split behind, and nothing else, loses 16 bytes |
| GuestHeap.PlaceKeepsBoundaries | system32/win32/guest-memory.js:53-80 | sizes that are multiples of 16 and alignments from 16 on keep every block on 16-byte boundaries and the piece aligned |
| GuestHeap.ReleaseKeepsTiles | system32/win32/guest-memory.js:94-104 | a release keeps it tiled and loses nothing |
| GuestHeap.PlacedStores | system32/win32/guest-memory.js:63-80 | the stores of an allocation leave the headers of the new list |
| GuestHeap.ReleasedStores | system32/win32/guest-memory.js:96-103 | the stores of a release leave the headers of the new list |
| GuestHeap.FreedHeader | system32/win32/guest-memory.js:98-103 | a release joins exactly if the next block is free and no bytes were lost between |
| GuestHeap.DataStoreKeepsHeaders | system32/win32/guest-memory.js:39-39 | a store into the data of a block changes no header |
| GuestHeap.PieceIsThere | system32/win32/guest-memory.js:60-84 | an allocation makes exactly one piece live, behind the skipped bytes |
| GuestHeap.PieceIsLargeEnough | system32/win32/guest-memory.js:60-84 | below 2 GB it has at least the bytes asked for |
| GuestHeap.PlacedMeans | system32/win32/guest-memory.js:63-80 | a free block of the skipped bytes, the piece, less than 32 bytes larger than asked for, and a free block of the rest exactly if a header and 16 bytes are over |
| GuestHeap.SuitsIff | system32/win32/guest-memory.js:52-61 | a free block suits exactly if a multiple of the alignment in it has the size behind it and is its first address or leaves room for a block in front, for alignments from 32 on |
| GuestHeap.ReleaseMeans | system32/win32/guest-memory.js:94-104 | a released block is free, joined with the next one and its header exactly if that is free and adjacent, and the others stay |
| GuestHeap.ClearingIsSafeIff | system32/win32/guest-memory.js:81-83 | clearing a piece keeps all headers if and only if its whole words end before the next block, or the bytes they take from the size of that block are 0; for multiples of 4 they always end before |
| GuestHeap.ThirteenBytesHarm | system32/win32/guest-memory.js:90-91 | 13 cleared bytes of a fresh arena make the size of the block behind them 0 |
| GuestHeap.ZeroWordIsFourBytes | system32/win32/guest-memory.js:81-83 | a store of 0 takes its four bytes from every word that shares them and no others |
| GuestHeap.WipedHeaders | system32/win32/guest-memory.js:81-83 | wiping memory from the data of a block on keeps the list if and only if every header reads the same without its wiped bytes |
| GuestHeap.ReleaseEndsLive | system32/win32/guest-memory.js:94-104 | a release ends exactly one live block |
| GuestHeap.Arena.constructor | system32/win32/guest-memory.js:24-28 | one free block over the arena |
| GuestHeap.Arena.FindFit | system32/win32/guest-memory.js:50-86 | the first free block with room for padding and size |
| GuestHeap.Arena.Carve | system32/win32/guest-memory.js:61-80 | the piece is carved out of it, with its splits in front and behind; nothing outside the block is written |
| GuestHeap.Arena.Zero | system32/win32/guest-memory.js:81-83 | the words of the piece are zero, the words behind lose just the bytes that are stored over, and the arena stays valid if and only if no header is harmed |
| GuestHeap.Arena.Alloc | system32/win32/guest-memory.js:48-88 | for every size and power of two: 0 exactly if no block suits; else a piece of the first that does, aligned exactly as `AlignedIff` says, with nothing outside that block written before the clearing; after the clearing the piece is zero, and the arena is valid if and only if no header was harmed |
| GuestHeap.Arena.Free | system32/win32/guest-memory.js:94-104 | the block is free or joined, and only its header is written; nothing happens for 0 |
| GuestHeap.HeldApart | system32/win32/guest-memory.js:48-104 | what two clients hold does not overlap and lies inside the arena |
| GuestHeap.Serve | system32/win32/guest-memory.js:48-104 | over any run of allocations, releases and client stores, with clearing in whole words, held pieces are disjoint, those with alignments from 32 on are aligned, and all are if sizes are multiples of 16 and alignments at least 16; stored words stay until given back, and the blocks with their headers add up to ARENA_SIZE minus 16 for each split behind |
| Lookaside.ChainStays | system32/ntos/ex/lookaside.js:52-53 | a store outside the cached blocks leaves the chain of the cache |
| Lookaside.ChainIsUnique | system32/ntos/ex/lookaside.js:28-33 | memory and the head determine which blocks are cached, in which order |
| Lookaside.List.constructor | system32/ntos/ex/lookaside.js:15-22 | an empty cache with Depth 4 if none is given, cut to 16 bits |
| Lookaside.List.Allocate | system32/ntos/ex/lookaside.js:25-37 | the top cached block, or what the pool gives: the block on offer unless it is out already; never a live one |
| Lookaside.Pool.Give | system32/ntos/ex/lookaside.js:36-36 | the pool gives a block out once until it gets it back |
| Lookaside.List.Free | system32/ntos/ex/lookaside.js:40-54 | goes to the pool exactly if the difference of the 32-bit counters is at least Depth, else on top of the cache; with fewer than 2^32 outstanding the bound on the cache is kept if and only if the counters have wrapped equally often or fewer than Depth are outstanding |
| Lookaside.List.DeleteList | system32/ntos/ex/lookaside.js:57-66 | each cached block goes to the pool once, top first, and the cache is empty |
| Lookaside.Serve | system32/ntos/ex/lookaside.js:25-66 | after any run every block out of the pool is with a client or in the cache, not both, and cached blocks are distinct; below 2^32 requests cached plus outstanding is at most Depth if anything is cached |
| DeviceQueue.InsertKeepsOrder | system32/ntos/io/start-io.js:77-92 | the insertion keeps the queue sorted by key, first come first among equal keys, and adds just the packet |
| DeviceQueue.InsertedBetween | system32/ntos/io/start-io.js:79-84 | the packet stands behind exactly those with smaller or equal keys, and without it the queue is as before |
| DeviceQueue.NoKeyGoesLast | system32/ntos/io/start-io.js:68-68 | a packet without a key goes behind all that wait, with the key 0xFFFFFFFF |
| DeviceQueue.StartMeans | system32/ntos/io/start-io.js:64-93 | a submission to an idle device starts at once and makes it busy, and any other one waits |
| DeviceQueue.NextMeans | system32/ntos/io/start-io.js:95-113 | the device is idle after StartNextPacket exactly if nothing waited; else it runs the packet that waited first |
| DeviceQueue.WorkConserving | system32/ntos/io/start-io.js:64-113 | over every legal run with any nesting the device has as many packets as a server that is never idle while somebody waits: all but one of them wait, and all others were started |
| DeviceQueue.CallbackIffStarted | system32/ntos/io/start-io.js:47-53 | StartIo runs exactly when a packet is started, if the driver has one |
| DeviceQueue.ThreePackets | system32/ntos/io/start-io.js:64-113 | of two packets that wait, the one with the smaller key runs first, and then the device is idle |
| DeviceQueue.StartKeeps | system32/ntos/io/start-io.js:64-93 | a submission keeps the invariant: nothing lost or doubled, sorted, and a waiting packet means BUSY and a current IRP |
| DeviceQueue.NextKeeps | system32/ntos/io/start-io.js:95-113 | so does taking the next packet |
| DeviceQueue.NextTakesLeast | system32/ntos/io/start-io.js:95-113 | the packet taken comes before all that go on waiting |
| DeviceQueue.StartedAtMostOnce | system32/ntos/io/start-io.js:64-113 | each submission is started once or waits once |
| DeviceQueue.RunKeeps | system32/ntos/io/start-io.js:64-113 | every run with any nesting of calls in StartIo routines keeps the invariant |
| DeviceQueue.ExecOfConcat | system32/ntos/io/start-io.js:47-53 | a run is the run of its parts: calls nested in a StartIo routine act like calls right after its start |
| DeviceQueue.InsertKeepsRing | system32/ntos/io/start-io.js:85-92 | the four stores of an insertion keep the list circular and doubly linked |
| DeviceQueue.InsertIffNew | system32/ntos/io/start-io.js:77-92 | an insertion leaves a circle of all packets if and only if the packet was not in the queue already |
| DeviceQueue.RemoveKeepsRing | system32/ntos/io/start-io.js:104-109 | the two stores of a removal keep it so |
| DeviceQueue.InsertRepresents | system32/ntos/io/start-io.js:77-92 | after them the list in memory is the reference queue with the packet inserted |
| DeviceQueue.RemoveRepresents | system32/ntos/io/start-io.js:104-109 | after them it is the reference queue without its first packet |
| DeviceQueue.DeviceObject.EnsureInitialized | system32/ntos/io/start-io.js:34-60 | an all-zero list head becomes an empty circle, and nothing else is seen to change |
| DeviceQueue.DeviceObject.FindPlace | system32/ntos/io/start-io.js:79-84 | the walk stops at the first packet with a larger key, or at the head |
| DeviceQueue.DeviceObject.StartPacket | system32/ntos/io/start-io.js:64-93 | with whatever its callback does, the object goes where the reference machine goes; without nested calls it is busy, with this packet if it was idle |
| DeviceQueue.DeviceObject.StartNextPacket | system32/ntos/io/start-io.js:95-113 | and so it does here; without nested calls BUSY and CurrentIrp are 0 exactly if nothing waited, else the first packet that waited is current |
| DeviceQueue.DeviceObject.CallStartIo | system32/ntos/io/start-io.js:47-53 | when the callback runs, BUSY is 1, CurrentIrp is this IRP and the list is complete |
| DeviceQueue.DeviceObject.Run | system32/ntos/io/start-io.js:64-113 | any nested run of the object is the flat run of the reference machine |
| IrpStack.Exec | system32/ntos/io/io-manager.js:119-194 | the current location stays between 1 and StackCount plus 1, whatever drivers do |
| IrpStack.ExecWalks | system32/ntos/io/io-manager.js:119-194 | in every run whose completion routines keep to the location rule the locations form a walk, one step down for a descent and one step up for a visit, finished only at the top |
| IrpStack.WalksIffLawful | system32/ntos/io/io-manager.js:119-194 | over all runs of a new request the locations form a walk if and only if every routine kept to the rule |
| IrpStack.TwiceWithoutTheRule | system32/ntos/io/io-manager.js:160-194 | when a routine completes its request again and lets the completion go on, the routine of the location above runs twice after one descent |
| IrpStack.CompleteWalks | system32/ntos/io/io-manager.js:160-194 | a completion visits locations strictly upwards from the current one |
| IrpStack.Crossings | system32/ntos/io/io-manager.js:119-194 | a location is entered once more than left while the request is at or below it, else as often |
| IrpStack.OncePerDescent | system32/ntos/io/io-manager.js:160-194 | over every run that keeps to the rule, stopped, resumed and sent down again, a location's routine is considered at most once for each descent |
| IrpStack.ExecIsFaithful | system32/ntos/io/io-manager.js:170-190 | in every run each visit finds the stack location and the status that were written last; if there is a routine, and the success bit is set and the status is no error, or the error bit is set and it is one, the routine runs next, with its context and the device of the last descent into the location above, 0 at the top; no other routine runs |
| IrpStack.NewRequestIsFaithful | system32/ntos/io/io-manager.js:119-194 | this holds for all runs of a new request |
| IrpStack.DispatchRuns | system32/ntos/io/io-manager.js:119-153 | what a dispatch routine does is what the same calls do right after the descent; at the bottom nothing is called |
| IrpStack.CompletionFinishes | system32/ntos/io/io-manager.js:160-194 | if no routine asks for more processing, the completion reaches the top and finishes |
| IrpStack.CompletionStops | system32/ntos/io/io-manager.js:182-187 | if the first routine that runs asks for it, the completion stops right there |
| IrpStack.StopAndResume | system32/ntos/io/io-manager.js:182-190 | stopping for more processing and completing again is the completion that never stopped |
| IrpStack.Irp.constructor | system32/win32/ntoskrnl/irp-builder.js:36-42 | a request with no location gets one, and is above its top location; the byte fields hold a request if and only if it has at most 254 locations that fit below 4 GB |
| IrpStack.Irp.CallDriver | system32/ntos/io/io-manager.js:119-153 | one location down with its device noted, or refused at the bottom; CurrentStackLocation stays the address of the current location |
| IrpStack.Irp.CompleteRequest | system32/ntos/io/io-manager.js:160-194 | the walk of the reference, with its answer, and the address kept |
| IrpStack.Irp.Review | system32/ntos/io/io-manager.js:171-190 | one location: up first, then the routine with the device object of the location above, 0 at the top |
| NtfsRecord.Read32 | system32/ntos/fs/ntfs.js:12-12 | reading a field inverts packing it |
| NtfsRecord.SeenOfBlob | system32/ntos/fs/ntfs.js:48-65 | an attribute as written is reported with its type and value, or with its run list and its size as a double |
| NtfsRecord.AttrsOfBlobs | system32/ntos/fs/ntfs.js:48-65 | the attributes are reported in order if none has the end mark's type, and else some are missing |
| NtfsRecord.AttrsAreGiven | system32/ntos/fs/ntfs.js:14-14 | they are reported as they were given if and only if none has that type and all sizes are doubles |
| NtfsRecord.OddSizeIsRounded | system32/ntos/fs/ntfs.js:14-14 | the size 2^53 + 1 is reported as 2^53 |
| NtfsRecord.GuardedReadsBack | system32/ntos/fs/ntfs.js:34-44 | reading restores every byte outside the update sequence array |
| NtfsRecord.AcceptedIffGuarded | system32/ntos/fs/ntfs.js:38-44 | a record is accepted if and only if both sectors end in the sequence number |
| NtfsRecord.MagicIsRequired | system32/ntos/fs/ntfs.js:33-34 | a record is refused for its magic if and only if it does not begin with FILE |
| NtfsRecord.RecordRoundTrip | tools/mkntfs.py:38-62 | for all attributes that fit, the record reads back and shows them as they were given if and only if none has the end mark's type and all sizes are doubles |
| NtfsRecord.RecordFields | tools/mkntfs.py:40-57 | every field of the record header, at its offset |
| NtfsRecord.SkippedFields | tools/mkntfs.py:64-92 | the fields of attribute headers that the reader does not look at, at their offsets |
| NtfsRecord.AttrResident | tools/mkntfs.py:64-75 | the bytes of a resident attribute, built in place |
| NtfsRecord.AttrNonResident | tools/mkntfs.py:77-94 | the bytes of a non-resident attribute, built in place |
| NtfsRecord.MakeRecord | tools/mkntfs.py:38-62 | the guarded record, built in place; it fails exactly if attributes and end mark do not fit |
| NtfsRecord.ReadRecord | system32/ntos/fs/ntfs.js:34-45 | patches the record in place, or reports a missing magic or a wrong sequence number |
| NtfsRecord.EachAttr | system32/ntos/fs/ntfs.js:48-65 | the loop reports the attributes of the reference and ends on any record |
| NtfsData.SInt | system32/ntos/fs/ntfs.js:15-20 | the signed number of n bytes with every step rounded to a double, not a number if they reach past the record |
| NtfsData.SignedIff | system32/ntos/fs/ntfs.js:15-20 | that is the exact two's complement number if and only if the bytes, unsigned, have at most 53 significant bits, so always up to 6 bytes |
| NtfsData.MinusOneIsLost | system32/ntos/fs/ntfs.js:15-20 | the bytes of -1 give -1 up to 6 bytes and 0 from 7 on |
| NtfsData.SignedOfTwos | system32/ntos/fs/ntfs.js:15-20 | decoding inverts two's complement if and only if the bytes have at most 53 significant bits |
| NtfsData.ParseRuns | system32/ntos/fs/ntfs.js:74-87 | the loop yields the runs of the reference, with its rounded numbers and sums, for any bytes, inside the record or not |
| NtfsData.ParsesRunList | system32/ntos/fs/ntfs.js:74-87 | a written run list parses to its counts and to the running sums of its distances if and only if the rounding shows in no run |
| NtfsData.KeptIff | system32/ntos/fs/ntfs.js:82-83 | it does not show in a run whose distance is read exactly if and only if the bytes of the count have at most 53 significant bits and the sum is a double |
| NtfsData.SixByteFieldsAreKept | system32/ntos/fs/ntfs.js:82-83 | nor in any run with fields of at most 6 bytes and sums up to 2^53 |
| NtfsData.LostDistance | system32/ntos/fs/ntfs.js:82-83 | a distance of -1 in 7 to 15 bytes is always lost |
| NtfsData.ReadSectors | system32/drivers/storage/ata-pio.js:33-55 | the bytes of the sectors, 28 bits of sector number; an error exactly if there can be no array for them (negative or of 2 GB and more) or one of them fails |
| NtfsData.SectorsReadMeans | vendor/quickjs/quickjs.c:56535-56538 | reading succeeds if and only if the count, unless it is not a number, gives an array of no negative length below 2 GB and no sector fails |
| NtfsData.NaNReadsTheFirstSector | system32/drivers/storage/ata-pio.js:38-45 | a start that is not a number reads the first sector every time |
| NtfsData.ReadRuns | system32/ntos/fs/ntfs.js:97-105 | exactly realSize bytes: the clusters of all runs in order, cut, and zeros past the last; an error exactly if there is no array of that length or a run that cannot be read is reached |
| NtfsData.ByteOnDisk | system32/drivers/storage/ata-pio.js:37-53 | byte j of a run is the byte of the disk j bytes behind the start of its first cluster, within the sectors the controller sees |
| NtfsData.ByteOfFile | system32/ntos/fs/ntfs.js:97-105 | and so is each byte of the data, the runs one behind the other |
| NtfsData.CutMeans | system32/ntos/fs/ntfs.js:95-105 | what the runs do not fill is 0, what they hold beyond the length is left out |
| NtfsData.Complete | system32/ntos/fs/ntfs.js:104-104 | stopping early loses nothing |
| NtfsData.ReadData | system32/ntos/fs/ntfs.js:90-106 | nothing, the resident value, or the run data of the first data attribute, of any record; raised exactly if that run data cannot be read |
| NtfsData.FileRoundTrip | tools/mkntfs.py:38-94 | the data attribute of a written record is found after reading back, and its run list gives the runs that were meant if and only if the rounding shows in none |
| NtfsData.FileIsMeant | system32/ntos/fs/ntfs.js:90-106 | then the file that is read is what these runs hold, or the error they raise, on every disk |
| NtfsData.FileIsRead | system32/ntos/fs/ntfs.js:90-106 | on a disk without failing sectors such a file is read, with exactly its size in bytes, if its runs lie within the sectors the controller sees |
| NtfsData.FileBytes | system32/ntos/fs/ntfs.js:97-105 | and each byte of a run within that size is the byte of the disk at its place behind the start of the run |
| NtfsData.ResidentFile | system32/ntos/fs/ntfs.js:93-93 | a file whose data is in the record is that data |
| NtfsData.EmptyFile | system32/ntos/fs/ntfs.js:92-92 | a file without a data attribute is empty |
| CivilTime.DateRoundTrip | hal/rtl/time.c:7-16 | every valid date survives the way to its day number and back |
| CivilTime.DayRoundTrip | hal/rtl/time.c:51-64 | every day number is the day of the valid date it gives |
| CivilTime.CivilDateRoundTrip | hal/rtl/time.c:51-64 | in C, with its conversions and overflows, the date survives if and only if it is not among the lowest 399 March-based years of an int |
| CivilTime.CivilRoundTrip | hal/rtl/time.c:51-64 | in C the day survives if and only if it lies between these years and the end of the year INT_MAX |
| CivilTime.CivilIsRight | hal/rtl/time.c:51-64 | civil_from_days gives the date of the day if and only if its March-based year and its year are ints |
| CivilTime.JanuaryAfterIntMax | hal/rtl/time.c:63-63 | 15 January of the year after INT_MAX overflows although its March-based year is an int |
| CivilTime.CountsDays | hal/rtl/time.c:7-16 | the day after a date has the next number |
| CivilTime.EpochIsDayZero | hal/rtl/time.c:6-16 | 1970-01-01 has number 0 |
| CivilTime.GmTimeRoundTrip | hal/rtl/time.c:67-87 | broken-down time inverts time() if and only if the year is from INT_MIN + 1900 to INT_MAX |
| CivilTime.GmTimeIsRight | hal/rtl/time.c:67-87 | gmtime_r gives the date of the day, without overflow, for exactly these years |
| CivilTime.LowYearOverflows | hal/rtl/time.c:76-76 | a date of the year -2147481800 is found, but tm_year overflows |
| CivilTime.ClockRoundTrip | hal/rtl/time.c:18-26 | a clock reading is broken down into itself if and only if its year is at least INT_MIN + 1900 |
| CivilTime.WeekDaysFollow | hal/rtl/time.c:82-82 | day 0 is a Thursday and week days follow each other |
| CivilTime.YearDayIsRightOnJanuaryFirst | hal/rtl/time.c:83-83 | tm_yday is right if and only if the date is 1 January |
| LongDivision.UDivMod128 | hal/rtl/builtins.c:8-20 | n is q times d plus r with r below d, the true quotient and remainder; all ones and n for a zero divisor |
| LongDivision.ShiftFits | hal/rtl/builtins.c:12-12 | the shifted remainder never overflows, because it is at most n shifted right |
| LongDivision.StepKeeps | hal/rtl/builtins.c:11-17 | each step keeps the bits seen equal to quotient times d plus remainder |
| LongDivision.UDiv128 | hal/rtl/builtins.c:22-24 | the quotient, all ones for a zero divisor |
| LongDivision.UMod128 | hal/rtl/builtins.c:26-30 | the remainder, n for a zero divisor |
| Numbers.DigitsFit | hal/rtl/stdio.c:33-42 | at most 22 digits of the 32-byte buffer are used |
| Numbers.PrintedParts | hal/rtl/stdio.c:43-46 | the text is as long as the larger of the width and the sign with the digits: pads, the sign, the digits |
| Numbers.DigitsHaveCase | hal/rtl/stdio.c:38-40 | all letters are of the case asked for |
| Numbers.DigitOfIff | hal/rtl/stdlib.c:106-111 | the digits of a base are exactly the characters of the numbers below it, in either case |
| Numbers.DigitEdges | hal/rtl/stdio.c:38-40 | the first and last digit and letters |
| Numbers.SpacesAre | hal/rtl/stdlib.c:116-116 | what is skipped in front is the white space of C |
| Numbers.Output.Emit | hal/rtl/stdio.c:20-27 | the text grows by one character, of which the buffer keeps what leaves room for a NUL; nothing behind it is written |
| Numbers.Output.CollectDigits | hal/rtl/stdio.c:35-42 | the digits, last one first |
| Numbers.Output.EmitULL | hal/rtl/stdio.c:33-47 | pads, sign and digits |
| Numbers.Output.Terminate | hal/rtl/stdio.c:129-131 | the NUL behind the text or at the end of the buffer |
| Numbers.PrintNumber | hal/rtl/stdio.c:69-132 | the buffer holds the text, or the front of it that fits, and the length is that of the whole text |
| Numbers.DigitsDenote | hal/rtl/stdio.c:37-42 | the digits denote the number |
| Numbers.StrToULL | hal/rtl/stdlib.c:113-133 | the value of the longest numeral modulo 2^64, negated after a minus, and where it ends |
| SubjectSequence.C11Iff | hal/rtl/stdlib.c:113-133 | for every text and every base of the standard, value and end are those of the longest subject sequence of section 7.22.1.4 of C11 if and only if the condition holds |
| SubjectSequence.SubjectIs | hal/rtl/stdlib.c:116-130 | the longest text of the expected form behind the spaces ends where the scan says, and there is none exactly if the scan finds no digit |
| Numbers.ParseOf | hal/rtl/stdlib.c:113-133 | spaces, a sign and digits are parsed to the end |
| Numbers.RoundTrip | hal/rtl/stdlib.c:113-133 | every 64-bit number printed in base 8, 10 or 16 parses back, except exactly nonzero negative ones padded with zeros; and the parser stops at the end of the text exactly if no zeros stand before a minus |
| Numbers.SignedRoundTrip | hal/rtl/stdio.c:91-98 | and so does every signed number in base 10 |

## Left out

- Starting the application processors, ACPI tables and the local APIC: hardware. The mailbox starts from slots that are online.
- runOnAp, which ignores that startJob refused. Timeouts of the mailbox are arbitrary choices; clocks are not modelled.
- Mailbox.AcceptedJobRuns: counts accesses of the AP; that the called routine returns, and that the AP is ever scheduled, is outside the model.
- The polling loops of smp.js and aptrampoline.asm are transitions of one machine rather than loops, because the interleaving of single accesses is what matters.
- Paging.PageTables.MapPage: flags below 4096. High attribute bits of entries (NX) are not modelled, and translation is what the kernel's own walk computes, not what a processor makes of reserved bits.
- TLB flushes, and frames or ranges that a failed allocation does not get back (the frame of the page that failed, page tables, the reserved range): only safety is proved for them.
- VirtualMemory.AddressSpace.Free: for live ranges and ranges without mapped pages. Freeing mapped pages that VirtualAlloc did not hand out is not modelled.
- The scan of the E820 table in kmalloc_init: its result, the top of the RAM, is a parameter.
- Kmalloc.Heap.Kfree, GuestHeap.Arena.Free and Lookaside.List.Free: for pointers that were handed out and not given back.
- GuestHeap.Arena.Alloc: power-of-two alignments; the arena lies below 2 GB.
- GuestHeap.Serve: clearing is for sizes that are multiples of 4 and all sums stay below 2 GB, because otherwise a call can destroy headers (`ClearingIsSafeIff`) and what follows is not modelled.
- Lookaside.List.Free: whether the bound comes back after the counters have wrapped is not stated. Cached blocks are taken to be at least four bytes long.
- Lookaside: the fields of the list structure are fields of the class, and the pool is any that gives out a block once until it gets it back.
- DeviceQueue.DeviceObject.StartPacket: requires that the IRP is not waiting already and overlaps neither a waiting one nor the list head; `InsertIffNew` says why, and what the queue does after that is not modelled.
- DeviceQueue: StartIo routines are arbitrary nested calls that do not write the list themselves; the type and lock fields and ioSetStartIoAttributes are not modelled. Memory is 64-bit words at the addresses of the fields, and addresses are exact as doubles.
- IrpStack.OncePerDescent: assumes that a completion routine that does not ask for more processing leaves the current location where it was, without which it is false (`TwiceWithoutTheRule`). Drivers may skip their location and write the status and any stack location.
- The finish of a request (status block, buffers, event) is one event at the end of the walk; device objects answered by JavaScript are dispatch routines like others.
- NtfsData.ReadData: sparse and compressed runs, index allocation and ATA port I/O are not modelled; which sectors fail is a parameter. Arrays are limited to 2 GB (vendor/quickjs/quickjs.c:56535-56538), but memory never runs out below that. Doubles have no largest one, which fields of 15 bytes in records below 2 GB do not reach.
- NtfsRecord.AttrNonResident: requires a size of at least one cluster and numbers that fit their fields; Python raises an error otherwise.
- CivilTime: what C does after a signed overflow is left undefined, as in the language; host_get_time is a parameter.
- Numbers: null buffers, the format language around numbers, strings and floating point.
- Numbers.Output.EmitULL: bases 8 to 16; the kernel prints in 8, 10 and 16.
- Export lists, ABI offsets, display, keyboard, console, shell, bus enumeration, tracing, controller objects, services and power: wrappers, tables or hardware.
