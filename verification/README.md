# Verified model of the AOS memory-management spine, its loaders and its codecs

This project models the parts of AOS whose correctness rests on state that is edited in place, and proves what those parts are
for. The simple specifications are one flat map from page to leaf, sets of pages and of addresses, a bit-by-bit polynomial
division, and a picture; the code is tied to them method by method, and the laws are lemmas about them. Concurrency is a machine
whose steps interleave freely. Every lemma turns Dafny's automatic induction off, so that each proof is what its body says.

| file | what it models |
|---|---|
| `PageTables.dfy`, `FlatMap.dfy`, `Pager.dfy`, `Teardown.dfy`, `Reclaim.dfy` | the four-level x86-64 tables with 4 KiB and 2 MiB leaves (section 4.5 of Intel SDM Volume 3A), `pager_map`, `pager_map_range`, `pager_unmap`, `destroy_table` |
| `Shootdown.dfy`, `ShootdownMailbox.dfy`, `ShootdownAnswer.dfy`, `ShootdownFree.dfy` | the TLB request and acknowledge protocol (section 4.10 of Intel SDM Volume 3A) and what `avmf_free` does to the bitmap in its lock window |
| `Bitmap.dfy`, `PhysicalSpec.dfy`, `PhysicalMemory.dfy` | the bitmap first-fit allocator over several regions |
| `FreeListSpec.dfy`, `CarveSpec.dfy`, `FreeListRuns.dfy`, `FreeChain.dfy` | the sorted, coalescing free list of virtual ranges and the carve, and runs of both |
| `Elf.dfy`, `ElfLayout.dfy` | the ELF64 loader of the UEFI bootloader and the bytes of the structures that it reads (System V gABI, chapter 4, ELF Header, and chapter 5, Program Header) |
| `MemoryMap.dfy`, `MemoryMapVirtual.dfy` | the memory-map loop of the UEFI bootloader (GetMemoryMap, section 7.2 of the UEFI specification) |
| `Crc32.dfy` | the CRC-32 of the boot record (section 8 of RFC 1952) |
| `Numbers.dfy` | printing and parsing of integers |
| `Atlas.dfy`, `FontLayout.dfy`, `FontFile.dfy`, `FontRoundTrip.dfy` | the AOSBF font writer, the kernel's reader and its glyph atlas |
| `LittleEndian.dfy`, `Arithmetic.dfy`, `Common.dfy` | structures written member by member, division facts, shared constants |

## Where the code does less than its name promises

Each of these is proved: the exact condition under which the code does what is expected, or that it never does, with an input or a
run on which it fails.

- `pager_map` stores `flags & 0xFFF`, which drops PAGE_XD (`Kernel/mm/pager.c:267` and `:298`): `FlatMap.ExecuteDisableIsDropped`.
- Table words carry PRESENT and RW only (`Kernel/mm/pager.c:243`, `:252`, `:286`), so that no page is ever reachable from user mode,
  although `Kernel/mm/avmf.c:124` asks for PAGE_USER: `PageTables.LeafDecides`, `Pager.AddedPageRights`.
- A 4 KiB request in a slot with the huge mark compares 2 MiB frames only (`Kernel/mm/pager.c:270-278`), and the mark outlives an
  unmap (`:352-353`): `FlatMap.SmallMapTakesEffect`, `FlatMap.HugeMarkStays`.
- `pager_unmap` keeps an emptied page table (`Kernel/mm/pager.c:359-367`); a 2 MiB request into its region is refused (`:258-264`),
  and `pager_map_range` drops the refusal (`:102`), so that a range onto pages without a translation can stay unmapped. Mapping a
  range with the huge/small choice equals mapping it page by page exactly when no such region gets a 2 MiB request:
  `FlatMap.EmptiedTableStays`, `FlatMap.EmptiedTableBlocksRange`, `FlatMap.RangeRefinesPagewise`.
- A core other than the bootstrap core sends itself the interrupt that it has masked (`Kernel/drivers/core/smp.c:908-931` with
  `Kernel/src/kfuncs.c:232-244`), so its `pager_unmap` always waits out a time-out, and the bootstrap core is never asked:
  `Shootdown.OnlyBootstrapFinishes`, `Shootdown.OthersNeverReachBsp`, `Shootdown.OtherCallerLeavesBsp`.
- An acknowledgement can come from a handler that still serves an earlier request. It can be trusted exactly when the mailbox was
  good as the lock was taken, or when it cannot come at all: `ShootdownMailbox.MailboxConditionIsExact`,
  `Shootdown.EarlierTimeOutBreaksLaterCall`.
- The handler clears the command after its acknowledgement (`Kernel/drivers/core/smp.c:304-311`), so that it can clear the command
  that the next caller has just stored; that caller then waits in vain. Without earlier time-outs this is exactly the case in which
  a request can get lost, and every other request is answered: `ShootdownAnswer.RequestIsLostIff`,
  `ShootdownAnswer.DroppedIsNeverAnswered`, `ShootdownAnswer.StandingIsAnswered`, `ShootdownAnswer.SecondRequestIsLost`.
- `Kernel/mm/avmf.c:418` counts a range away that was only replaced; a counter that reaches 0 that way makes the next append drop
  the list: `FreeListSpec.CountStaysExact`, `FreeListSpec.CountLosesMemory`.
- The label `next_free` stands behind the loop (`Kernel/mm/avmf.c:752-757`), so only the head range is ever tried:
  `CarveSpec.CarveTriesOnlyHead`, `CarveSpec.SmallHeadHidesTheRest`.
- The memory-map loop also tests virtual addresses, which are usually all 0, and so can pick a structure that lies elsewhere; the
  sizes then underflow (`Bootloader/UEFI/src/bootloader_uefi.c:1050-1065`): `MemoryMap.SplitIsExactIff`,
  `MemoryMap.RunIsExactIff`, `MemoryMap.VirtualTestPicksElsewhere`. The rest behind a structure may be marked by accident, because its type is read from a
  slot that was overwritten (`:1133`, `:1151`): `MemoryMap.OnlyTheTailIsTaken`, `MemoryMap.FreeMemoryIsTaken`. Of two structures in
  one descriptor the second one stays unmarked: `MemoryMap.BothInOneDescriptor`, `MemoryMap.SecondStructureIsFree`. The rest behind a structure is entered
  without its virtual address (`:1145-1152`): `MemoryMapVirtual.RestLosesVirtual`.
- A segment that ends in the last page of the address space makes the rounded end of the image wrap
  (`Bootloader/UEFI/src/elf.c:170-174`): `Elf.HullHoldsIff`, `Elf.LastPageIsMissed`.
- The reader of fonts asks where a glyph record starts and not where it ends (`Kernel/drivers/extra/aosbf.c:335`), so the last
  record of an accepted font can lie behind the buffer: `FontFile.TableInsideIff`, `FontRoundTrip.AcceptedBehindTheBuffer`. No font
  that the converter lays out is of that kind: `FontRoundTrip.WrittenTableInside`.
- `kstr_to_i64` does not undo `ki64_to_str` for negative numbers outside base ten: `Numbers.I64RoundTripIff`.

## Model

| member | source | states |
|---|---|---|
| PageTables.WalkIsFlat | Kernel/mm/pager.c:224-303 | on a tree of tables the processor's four-level walk gives what the two decisive words of the page say |
| PageTables.LinkTable | Kernel/mm/pager.c:47-79 | hanging a fresh zeroed table into an empty slot keeps the tables a tree in which each frame has one parent slot |
| PageTables.LinkTableKeepsWords | Kernel/mm/pager.c:240-254 | a new table changes no translation: every page keeps its directory word and its table word |
| PageTables.SetDirectoryWord | Kernel/mm/pager.c:267 | a huge leaf stored into a slot without a table changes that one directory word and keeps the tree |
| PageTables.SetTableWord | Kernel/mm/pager.c:298 | a 4 KiB leaf stored into a bottom table changes that one table word and keeps the tree |
| PageTables.LeafDecides | Kernel/mm/pager.c:239-298 | every table word on the path allows writing and forbids user mode: a page is writable exactly if its leaf is, and never reachable from user mode |
| FlatMap.MapAddsExactly | Kernel/mm/pager.c:224-303 | a map that adds something adds the new leaf to exactly the requested pages, all untranslated before; otherwise nothing changes |
| FlatMap.LeafIsAsRequested | Kernel/mm/pager.c:267-298 | the leaf that a map adds has the frame of the request, PRESENT, the other low twelve bits of the request, and nothing else in its low part |
| FlatMap.AnswerByTranslation | Kernel/mm/pager.c:224-303 | which of the three answers is given, by what the page translated to: refused at and above the limit, added exactly without a translation (and, for 2 MiB, without a table), found exactly on the same frame |
| FlatMap.MapNeverAlters | Kernel/mm/pager.c:224-303 | no call of pager_map ever alters or drops an existing translation |
| FlatMap.SmallMapTakesEffect | Kernel/mm/pager.c:269-300 | a 4 KiB request that reports success has taken effect if and only if the slot has no huge mark, or the mark is present and the offsets agree |
| FlatMap.HugeMapTakesEffect | Kernel/mm/pager.c:256-268 | a 2 MiB request that reports success has always taken effect |
| FlatMap.UnmapRemovesExactly | Kernel/mm/pager.c:329-371 | unmap removes exactly the 4 KiB or 2 MiB page that holds the address, and reaches its invlpg whenever there was a translation |
| FlatMap.UnmapUndoesMap | Kernel/mm/pager.c:329-371 | unmapping what was just mapped restores every translation |
| FlatMap.HugeMarkStays | Kernel/mm/pager.c:270-278 | after a huge page was mapped and unmapped, no 4 KiB request in that slot ever maps a page, and it reports success exactly on the old 2 MiB frame |
| FlatMap.ExecuteDisableIsDropped | Kernel/mm/pager.c:267-298 | PAGE_XD in the request has no influence on the stored leaf |
| FlatMap.RangeIsExact | Kernel/mm/pager.c:94-109 | onto pages without a translation or a huge mark, every page of the rounded-up range is mapped at its own offset, except exactly those that a 2 MiB request into a region with a table leaves out |
| FlatMap.WithHugeKeepsTheRest | Kernel/mm/pager.c:102 | marking a request as huge sets bit 7 and changes no other bit |
| FlatMap.RangeMapsEveryByte | Kernel/mm/pager.c:94-109 | every byte of the range translates to its own offset, or to nothing if it is one of those left out, and nothing outside the range changes |
| FlatMap.RangeRefinesPagewise | Kernel/mm/pager.c:94-109 | mapping with the huge/small choice and mapping page by page translate every address alike if and only if no 2 MiB request meets a region that still has a table |
| FlatMap.EmptiedTableStays | Kernel/mm/pager.c:329-371 | after a 4 KiB page was mapped in an empty region and unmapped again, the region has no translation but keeps a table |
| FlatMap.EmptiedTableBlocksRange | Kernel/mm/pager.c:94-109 | in such a region a range of 2 MiB maps nothing, although each of its pages could be mapped alone |
| Pager.WalkRefinesFlat | Kernel/mm/pager.c:224-303 | the walk of any tree of tables is its flat map |
| Pager.Pager.constructor | Kernel/mm/pager.c:179-183 | an empty root table is a tree that translates nothing |
| Pager.Pager.EnsureDirectory | Kernel/mm/pager.c:239-254 | the directory of the address is found or created without changing any translation |
| Pager.Pager.MapHuge | Kernel/mm/pager.c:256-268 | the 2 MiB case of the insertion into the flat map, and when it fails |
| Pager.Pager.MapSmall | Kernel/mm/pager.c:269-300 | the 4 KiB case of the insertion into the flat map, and when it fails |
| Pager.Pager.Map | Kernel/mm/pager.c:224-303 | the tables stay a tree, their flat map becomes that of the insertion, failure is reported exactly when the insertion is refused, and an added page can be written along its whole walk exactly if the request has RW |
| Pager.AddedPageRights | Kernel/mm/pager.c:239-298 | the rights of an added page: written exactly if the request has RW, never from user mode |
| Pager.Pager.MapRange | Kernel/mm/pager.c:94-109 | the loop ends and leaves the flat map of the range specification |
| Pager.Pager.Unmap | Kernel/mm/pager.c:329-371 | the tables stay a tree, their flat map becomes that of the removal, and the result says whether invlpg is reached |
| Pager.Pager.DestroyTable | Kernel/mm/pager.c:305-322 | the recursion frees the frames of the subtree in the specified order, clears the slots below, and touches no other table |
| Pager.Pager.DestroyAll | Kernel/mm/pager.c:305-327 | from the root: every table frame is freed exactly once, nothing else is, and nothing is translated afterwards |
| Teardown.TeardownFreesEachTableOnce | Kernel/mm/pager.c:305-322 | the order of the frees lists every table frame once and no other frame |
| Reclaim.TeardownReturnsItsFrames | Kernel/mm/avmf.c:904-947 | after the teardown the bitmap has lost exactly the bits of the table frames that lie in a region |
| Shootdown.StepKeepsInv | Kernel/drivers/core/smp.c:898-950 | every step of any core keeps the protocol invariant, time-outs included |
| Shootdown.ShootdownSafety | Kernel/mm/pager.c:329-371 | over every interleaving, with time-outs anywhere: when a call is done whose own waits were acknowledged and that found good mailboxes, no core caches a translation of the page older than the clearing of the entry |
| Shootdown.NoTimeOutNoDoubt | Kernel/drivers/core/smp.c:908-931 | as long as no wait has timed out, every call has found good mailboxes and every freed frame is accounted for |
| Shootdown.OnlyBootstrapFinishes | Kernel/drivers/core/smp.c:908-950 | no core but the bootstrap core is ever done without a time-out, because it has masked the interrupt that it sends to itself |
| ShootdownMailbox.MailboxConditionIsExact | Kernel/drivers/core/smp.c:908-931 | in every reachable state, when a lock has just been taken, the acknowledgement is right in every continuation if and only if the target is clean, no interrupt is pending and no handler is at work that could acknowledge for another page, or the target cannot unmask its interrupts before it has passed its own mailbox |
| ShootdownAnswer.DroppedIsNeverAnswered | Kernel/drivers/core/smp.c:293-315 | a caller whose command was cleared while no handler was on its way to an acknowledgement never sees one, whatever all cores do, until it times out |
| ShootdownAnswer.RequestIsLostIff | Kernel/drivers/core/smp.c:293-315 | in every run without a time-out so far, a request whose lock has just been taken can get lost if and only if the target has answered the caller before and not yet left its handler |
| ShootdownAnswer.StandingIsAnswered | Kernel/drivers/core/smp.c:908-931 | any other request is answered after at most six steps of a target that does not mask its interrupts |
| ShootdownAnswer.SecondRequestIsLost | Kernel/drivers/core/smp.c:293-315 | a run without a time-out in which the second of two requests to a core can get lost |
| Shootdown.NoFrameReusedWhileCached | Kernel/mm/avmf.c:1058-1069 | no physical allocation hands out a frame that avmf_free gave back, behind 4 KiB or 2 MiB leaves, while a core still caches the translation to it, unless the unmap of that frame met a time-out or a stale mailbox |
| ShootdownFree.FreeClearsTheBlock | Kernel/mm/avmf.c:1058-1069 | over every run: while avmf_free is at work, whatever other cores do, the bitmap is what it was at its start without exactly the frames done so far; when it ends exactly the frames of the block have left it, they can be allocated, and all are recorded as freed |
| ShootdownFree.OnlyAllocOutside | Kernel/mm/avmf.c:856-902 | outside avmf_free only an allocation changes the bitmap; it takes frames whose bits are clear and sets exactly those |
| ShootdownFree.AllocatedOnce | Kernel/mm/avmf.c:1063-1066 | between two allocations of a frame some step of an avmf_free has cleared exactly its bit |
| ShootdownFree.FreeComesToItsEnd | Kernel/mm/avmf.c:1058-1069 | every block that a lone core begins to free is freed to its last page |
| Shootdown.OthersNeverReachBsp | Kernel/drivers/core/smp.c:944-950 | from every reachable state on, whatever the other cores call, the bootstrap core keeps what it caches of a page until it flushes, evicts or refills that itself |
| Shootdown.OtherCallerLeavesBsp | Kernel/drivers/core/smp.c:908-950 | a run in which core 1 unmaps, waits out its own masked interrupt and is done, and the bootstrap core keeps the stale translation |
| Shootdown.EarlierTimeOutBreaksLaterCall | Kernel/drivers/core/smp.c:293-315 | a run in which a wait that timed out in one call makes the handler acknowledge a later call, which meets no time-out itself, without invalidating its page |
| Bitmap.Set | Kernel/mm/avmf.c:40-42 | the set of allocated pages gains exactly the page |
| Bitmap.Clear | Kernel/mm/avmf.c:44-46 | the set of allocated pages loses exactly the page |
| PhysicalSpec.AllocIsFirstFit | Kernel/mm/avmf.c:856-902 | a block is taken if and only if some region has a long enough free run, and it is the lowest run of the first such region |
| PhysicalSpec.PagesHoldBytes | Kernel/mm/avmf.c:859-863 | the pages counted for a size hold that many bytes, and one page fewer would not |
| PhysicalSpec.AllocInBytes | Kernel/mm/avmf.c:856-902 | a block is found exactly if some region holds that many free bytes in whole pages; all bytes of the returned block were free, and exactly the pages of its bytes are allocated by the call |
| PhysicalSpec.AllocReportsFailure | Kernel/mm/avmf.c:856-902 | 0 is returned exactly for an empty or overlong request, when there is no run, or when the first fit is page 0; with all regions above page 0, as at boot, exactly when there is no block |
| PhysicalSpec.FreeIsAllOrNothing | Kernel/mm/avmf.c:904-947 | a free changes something exactly when the whole run is allocated inside one region, and then clears exactly its bits |
| PhysicalSpec.FreeUndoesAlloc | Kernel/mm/avmf.c:904-947 | on disjoint regions, freeing what was just allocated restores bitmap and byte counts |
| PhysicalSpec.FreePageIsFree | Kernel/mm/avmf.c:84-115 | on disjoint regions the one-page free is the one-page case of the contiguous free |
| PhysicalSpec.GiveConserves | Kernel/mm/avmf.c:935-942 | the saturating subtraction does not saturate, and the byte counts stay PAGE_SIZE times the set bits |
| PhysicalSpec.StartIsSound | Kernel/mm/avmf.c:1073-1092 | regions with no page taken and no bytes counted are a sound start of every run |
| PhysicalSpec.RunsConserve | Kernel/mm/avmf.c:52-115 | over every run of the four operations the byte counts stay exact and the live blocks are allocated and pairwise disjoint |
| PhysicalSpec.LiveBytesApart | Kernel/mm/avmf.c:856-902 | in every sound state live blocks, taken as the bytes that were asked for, share no byte |
| PhysicalSpec.AllocMakesLive | Kernel/mm/avmf.c:856-902 | an allocation makes live exactly the bytes that it hands out |
| PhysicalSpec.FreeEndsLive | Kernel/mm/avmf.c:904-947 | a free ends exactly the live blocks that have lost a page |
| PhysicalSpec.NoByteTwice | Kernel/mm/avmf.c:856-902 | over every run no byte is handed out twice unless a free has named its page in between |
| PhysicalSpec.FreeEachClears | Kernel/mm/avmf.c:904-947 | freeing frames one by one clears precisely the bits of those that lie in a region |
| PhysicalMemory.PhysicalMemory.ScanRegion | Kernel/mm/avmf.c:871-896 | the scanning loop finds the lowest free run of the region, or none exists |
| PhysicalMemory.PhysicalMemory.AllocContiguous | Kernel/mm/avmf.c:856-902 | state and result are those of the first-fit specification |
| PhysicalMemory.PhysicalMemory.AllocPage | Kernel/mm/avmf.c:52-82 | the one-page scan is the first fit of one page |
| PhysicalMemory.PhysicalMemory.FreeContiguous | Kernel/mm/avmf.c:904-947 | the state is that of the all-or-nothing specification |
| PhysicalMemory.PhysicalMemory.FreeOnePage | Kernel/mm/avmf.c:84-115 | the state is that of the one-page specification |
| FreeListSpec.AppendIsUnion | Kernel/mm/avmf.c:351-429 | an append is refused exactly for an empty, overflowing or overlapping range; otherwise the list is again sorted, disjoint and coalesced and covers the old addresses and the range |
| FreeListSpec.CountStaysExact | Kernel/mm/avmf.c:398-428 | the counter stays the length of the list if and only if the append does not merge with the upper neighbour alone |
| FreeListSpec.CountLosesMemory | Kernel/mm/avmf.c:418 | two appends after which addresses that were free are covered no longer |
| FreeListRuns.ExactIffHarmless | Kernel/mm/avmf.c:398-428 | the list and its counter are exact behind every operation of a run if and only if no append is accepted that merges with its upper neighbour alone |
| FreeListRuns.RunsKeepMemory | Kernel/mm/avmf.c:351-429 | over every run of appends and carves without that case, address by address, free now plus taken is free at the start plus given back |
| FreeListRuns.NoDoubleUse | Kernel/mm/avmf.c:659-757 | over such a run no address is handed out twice unless it was given back in between |
| FreeListRuns.PageRunsRespectMinimum | Kernel/mm/avmf.c:949-995 | with whole pages throughout, as the kernel's caller passes them, every block is page-aligned and at or above its minimum |
| FreeListSpec.UniqueForm | Kernel/mm/avmf.c:387-428 | two sorted, coalesced lists that cover the same addresses are the same list |
| CarveSpec.CarveRemovesExactly | Kernel/mm/avmf.c:659-751 | the block lies in the head range and below the maximum, is aligned, and exactly its addresses leave the list, whose counter stays exact |
| CarveSpec.CarveIsLowest | Kernel/mm/avmf.c:667-680 | as long as the rounding does not wrap, the carve succeeds if and only if the head range holds an aligned block within the limits, and it takes the lowest one |
| CarveSpec.CarveRespectsMinimum | Kernel/mm/avmf.c:668-680 | the block lies at or above the minimum if and only if the rounding does not wrap |
| CarveSpec.AppendUndoesCarve | Kernel/mm/avmf.c:387-428 | giving the block back restores the identical list, and the counter too unless the block was the lower part of the head range |
| CarveSpec.CarveTriesOnlyHead | Kernel/mm/avmf.c:659-757 | the search finds a block whenever some range suits, if and only if the head range suits or none does |
| CarveSpec.SmallHeadHidesTheRest | Kernel/mm/avmf.c:752-757 | after two appends to an empty region 16 KiB are free, and 8 KiB are refused |
| FreeChain.Region.Find | Kernel/mm/avmf.c:372-385 | the walk over the nodes finds the insertion point of the specification or the overlap |
| FreeChain.Region.PutIn | Kernel/mm/avmf.c:387-428 | the four relinking cases leave the chain of the specified shape, with its last node and its counter |
| FreeChain.Region.Append | Kernel/mm/avmf.c:351-429 | the relinked nodes spell the specified list; a refused range leaves the chain untouched |
| FreeChain.Region.CarveHead | Kernel/mm/avmf.c:659-757 | the loop with its jumps never takes a second turn; it carves the specified block out of the nodes, or leaves them untouched |
| Elf.MakeCtx | Bootloader/UEFI/src/elf.c:67-123 | a file of either class is accepted exactly if it passes the header checks; the context describes it, and the program headers of a 64-bit file lie inside it |
| Elf.VerifyMeansInside | Bootloader/UEFI/src/elf.c:35-49 | the overflow guard makes the wrapped size test exact |
| ElfLayout.PhdrFromFile | Bootloader/UEFI/src/elf.c:139-147 | a program header written member by member in the order of the standard is read as its members, wherever it lies |
| ElfLayout.HeadersFromFile | Bootloader/UEFI/src/elf.c:131-147 | the loader works on exactly the program headers that were written |
| ElfLayout.EhdrFromFile | Bootloader/UEFI/src/elf.c:67-123 | the header of a 64-bit file is read as the members that were written |
| ElfLayout.Ehdr32FromFile | Bootloader/UEFI/src/elf.c:67-123 | the header of a 32-bit file is read as the members that were written |
| ElfLayout.RecognisedIff | Bootloader/UEFI/src/elf.c:35-49 | a 64-bit file passes the header checks if and only if its written members say: ELF, executable or shared, x86-64, current version, and 56-byte program headers inside the file |
| ElfLayout.Recognised32Iff | Bootloader/UEFI/src/elf.c:51-65 | the same for a 32-bit file, with program headers of 32 bytes |
| ElfLayout.AcceptableIff | Bootloader/UEFI/src/elf.c:139-157 | a loadable header is well formed if and only if its alignment is a power of two to which offset and address are congruent, its bytes lie in the file and fit its memory, and its end fits 64 bits |
| ElfLayout.FlagsMean | Bootloader/UEFI/src/elf.c:178-187 | the flag tests by the bits PF_X, PF_W and PF_R |
| Elf.CopySegment | Bootloader/UEFI/src/elf.c:190-195 | the segment's file bytes and its zeroes are in memory, and nothing else changed |
| Elf.Check | Bootloader/UEFI/src/elf.c:139-168 | the inner loop accepts exactly the headers that are well formed and meet no other loadable one |
| Elf.PlaceSegment | Bootloader/UEFI/src/elf.c:190-195 | copying the next segment keeps all earlier ones, because it meets none of them |
| Elf.FirstPass | Bootloader/UEFI/src/elf.c:131-197 | the first loop succeeds exactly if every header is well formed, apart from the others and, in a fixed image, granted its memory; then it has the hull, the entry test and the copies |
| Elf.HullHoldsIff | Bootloader/UEFI/src/elf.c:170-174 | the rounded hull holds all segments if and only if none ends in the last page of the address space |
| Elf.LastPageIsMissed | Bootloader/UEFI/src/elf.c:170-174 | two acceptable segments whose hull passes the tests and misses the one in the last page, which lies behind the whole image |
| Elf.SecondPass | Bootloader/UEFI/src/elf.c:209-224 | the second loop copies every segment at one distance and finishes the entry test |
| Elf.Load | Bootloader/UEFI/src/elf.c:125-229 | it succeeds exactly if all headers are admitted, the entry lies in an executable segment and a relocatable hull is granted its pages; then the image lies in the granted block, or at its own address, every byte of every segment and the entry have moved by that one distance, the segments are disjoint, and no write left the image |
| Elf.RelocatedEntry | Bootloader/UEFI/src/elf.c:206-208 | the entry moved in 64-bit arithmetic lies in an executable segment if and only if it did before |
| MemoryMap.StepCounts | Bootloader/UEFI/src/bootloader_uefi.c:1000-1156 | every byte of a descriptor gains exactly one covering entry, of the exact kind given, and no other byte changes |
| MemoryMap.TypeMeans | Bootloader/UEFI/src/bootloader_uefi.c:1006-1031 | which firmware types count as free, ACPI, defective and reserved memory; an unknown type is reserved |
| MemoryMap.SeemsInsideMeans | Bootloader/UEFI/src/bootloader_uefi.c:1050-1053 | a structure is taken for one inside a descriptor exactly if all its bytes are among the physical or all among the virtual ones |
| MemoryMap.PagesOfStructure | Bootloader/UEFI/src/bootloader_uefi.c:1057-1058 | the protected pages run from the page of the first byte to that of the last one |
| MemoryMap.SplitIsExactIff | Bootloader/UEFI/src/bootloader_uefi.c:1094-1155 | a split keeps exact coverage if and only if the structure's pages overlap or adjoin the descriptor |
| MemoryMap.RunIsExactIff | Bootloader/UEFI/src/bootloader_uefi.c:1000-1156 | every step of the loop keeps coverage exact if and only if every structure that is picked touches the descriptor that is split around it |
| MemoryMap.VirtualTestPicksElsewhere | Bootloader/UEFI/src/bootloader_uefi.c:1050-1065 | with virtual addresses 0 a large descriptor is split around a structure below it, and the map is wrong |
| MemoryMap.AgreementIsProper | Bootloader/UEFI/src/bootloader_uefi.c:1050-1074 | a virtual test that agrees with physical containment always picks a structure that touches the descriptor |
| MemoryMap.MapIsExact | Bootloader/UEFI/src/bootloader_uefi.c:1000-1156 | each byte of disjoint descriptors lies in exactly one entry, of the descriptor's kind or a structure's, so nothing reserved becomes free |
| MemoryMapVirtual.VirtualIsKept | Bootloader/UEFI/src/bootloader_uefi.c:1000-1156 | in the finished map each byte that is not at or behind a structure is covered by an entry that gives it the virtual address of its descriptor |
| MemoryMapVirtual.RestLosesVirtual | Bootloader/UEFI/src/bootloader_uefi.c:1145-1152 | the rest behind a structure keeps its virtual address if and only if the descriptor has none or the rest happens to start at virtual address 0 |
| MemoryMap.MapAddsNothing | Bootloader/UEFI/src/bootloader_uefi.c:1000-1156 | a byte outside all descriptors lies in no entry |
| MemoryMap.StructureIsProtected | Bootloader/UEFI/src/bootloader_uefi.c:1050-1074 | all pages of a structure that is alone in its descriptor are marked as a structure's |
| MemoryMap.OnlyTheTailIsTaken | Bootloader/UEFI/src/bootloader_uefi.c:1100-1153 | in the finished map a byte is marked as a structure's exactly if it belongs to the structure's pages, or lies behind them and the structure's entry took the drafted slot |
| MemoryMap.FreeMemoryIsTaken | Bootloader/UEFI/src/bootloader_uefi.c:1133-1151 | a structure at the start of free memory makes the rest of it a structure's, too |
| MemoryMap.BothInOneDescriptor | Bootloader/UEFI/src/bootloader_uefi.c:1050-1074 | with both structures in one descriptor, the finished map marks the second one's pages if and only if they lie among the first one's or in a rest marked by accident |
| MemoryMap.SecondStructureIsFree | Bootloader/UEFI/src/bootloader_uefi.c:1050-1074 | a descriptor with two structures after which the map calls the second one's page free memory |
| MemoryMap.Fragment | Bootloader/UEFI/src/bootloader_uefi.c:1094-1155 | the branch that writes through aliased slots is the pure split |
| MemoryMap.TakeDescriptor | Bootloader/UEFI/src/bootloader_uefi.c:1000-1156 | the loop body is the pure step and uses at most three slots |
| MemoryMap.Normalise | Bootloader/UEFI/src/bootloader_uefi.c:996-1156 | the loop leaves the map of the pure run, with at most three entries for each descriptor |
| Crc32.TableStepIsEightBits | Bootloader/MBR/src/ambrc.c:84-86 | one table step is eight steps of the bitwise reflected division, through linearity of the shift |
| Crc32.TableRunIsBitRun | Bootloader/MBR/src/ambrc.c:80-88 | a byte at a time through the table is a bit at a time by the definition, for every string |
| Crc32.CheckValue | Bootloader/MBR/src/ambrc.c:66-88 | the CRC of "123456789" is the published check value 0xCBF43926 |
| Crc32.Checksum.Generate | Bootloader/MBR/src/ambrc.c:66-78 | every slot of the table is the eightfold shift of its index |
| Crc32.Checksum.Calculate | Bootloader/MBR/src/ambrc.c:80-88 | the result is the CRC-32 by its definition |
| Crc32.BurstDetected | Bootloader/MBR/src/ambrc.c:66-88 | byte strings of one length that differ only inside 32 consecutive bits have different CRCs |
| Crc32.CorruptionIsRejected | Bootloader/MBR/src/ambrc.c:106-120 | a record that differs from an accepted one with the same checksum in one such burst is rejected |
| Numbers.GuardIsExact | Kernel/src/kfuncs.c:756-758 | the division guard fires exactly when the next value leaves 64 bits |
| Numbers.StrToU64 | Kernel/src/kfuncs.c:744-765 | on any input the value of the longest digit prefix, clamped to 64 bits; 0 for a bad base |
| Numbers.StrToI64 | Kernel/src/kfuncs.c:767-804 | the same with a sign, clamped at both ends |
| Numbers.FillDigits | Kernel/src/kfuncs.c:892-900 | the digit loop writes the digits lowest first and fails exactly when they fill the buffer |
| Numbers.TurnRound | Kernel/src/kfuncs.c:906-913 | the swap loop reverses the buffer in place |
| Numbers.U64ToStr | Kernel/src/kfuncs.c:883-916 | success exactly if there is room for the digits and two characters more; then digits, NUL and an untouched rest |
| Numbers.I64ToStr | Kernel/src/kfuncs.c:835-881 | the same with the sign in base ten |
| Numbers.U64RoundTrip | Kernel/src/kfuncs.c:744-765 | parsing a printed number gives it back in every base, whatever non-digit follows |
| Numbers.DigitsAreNumeral | Kernel/src/kfuncs.c:883-916 | what is printed are digits of the base in the requested case, without a leading zero |
| Numbers.OnlyNumeral | Kernel/src/kfuncs.c:883-916 | it is the only such string that has the value |
| Numbers.PlusIsSkipped | Kernel/src/kfuncs.c:744-785 | one plus sign in front changes nothing |
| Numbers.SecondSignStops | Kernel/src/kfuncs.c:744-785 | after a second sign nothing is read |
| Numbers.I64RoundTripIff | Kernel/src/kfuncs.c:767-804 | the signed pair is a round trip if and only if the base is ten or the number is not negative, down to the least number |
| Atlas.PictureIsDetermined | Kernel/drivers/extra/aosbf.c:196-272 | the placements determine every pixel of the atlas |
| Atlas.DrawingShows | Kernel/drivers/extra/aosbf.c:196-272 | drawing a glyph that is clear of all others adds exactly its pixels to the picture |
| Atlas.GrowingShows | Kernel/drivers/extra/aosbf.c:137-148 | a taller buffer with the old rows shows the same picture |
| Atlas.WordTellsPixel | Kernel/drivers/extra/aosbf.c:209-270 | two pixels with the same atlas word have the same colour |
| Atlas.SmallPixel | Kernel/drivers/extra/aosbf.c:209-234 | one, two and four bits for each pixel, leftmost highest: the pixel is white and its alpha rises in equal steps |
| Atlas.WidePixel | Kernel/drivers/extra/aosbf.c:236-265 | whole bytes for each pixel: alpha alone, red green blue, or all four in that order |
| Atlas.PackedIsRgba | Kernel/drivers/extra/aosbf.c:269-270 | the atlas word of a colour is its four components as bytes, red first |
| Atlas.DecodableIff | Kernel/drivers/extra/aosbf.c:150-194 | the tests on a glyph pass exactly if its format is known, its pitch positive, the bits of a row fit into the pitch and all rows are there |
| Atlas.RoundUpIsLeast | Kernel/drivers/extra/aosbf.c:99-103 | the buffer grows to the least multiple of 512 rows that holds the glyph |
| Atlas.AtlasData.NextShelf | Kernel/drivers/extra/aosbf.c:74-88 | the cursor moves to a new shelf exactly when the glyph and its padding do not fit |
| Atlas.AtlasData.MakeRoom | Kernel/drivers/extra/aosbf.c:90-149 | the buffer grows exactly when needed, to a multiple of 512 rows, and keeps its picture |
| Atlas.AtlasData.Draw | Kernel/drivers/extra/aosbf.c:196-272 | the pixel loops write exactly the glyph's rectangle with its decoded pixels |
| Atlas.AtlasData.Place | Kernel/drivers/extra/aosbf.c:27-283 | success exactly for a glyph that can be decoded and finds room, and then at the specified place; it is clear of all earlier glyphs by a pixel, inside the atlas, and every earlier pixel is kept; a failure keeps the picture |
| FontLayout.RecordFromFile | Headers/aos_bitmap_font.h:58-78 | reading a glyph record where its bytes were written gives the record |
| FontLayout.HeaderFromFile | Headers/aos_bitmap_font.h:29-56 | reading the header that was written gives the header |
| FontLayout.RecordFromMembers | Headers/aos_bitmap_font.h:58-78 | the record that is read is the structure written member by member, padding included |
| FontLayout.HeaderFromMembers | Headers/aos_bitmap_font.h:29-56 | the same for the file header |
| FontFile.BitmapStore.Resize | CommandLine/bdfconv/src/aosbf.c:81-94 | growing the buffer keeps its contents, and fails exactly on a smaller or empty size or without memory |
| FontFile.BitmapStore.Push | CommandLine/bdfconv/src/aosbf.c:104-132 | the bitmap's bytes are appended and their offset returned; a failure keeps the contents |
| FontFile.BuildGlyphs | CommandLine/bdfconv/src/aosbf.c:210-315 | it succeeds exactly if every bitmap has a known format and the buffer may grow where it must; then the records name, one by one, the places of the pushed bitmaps |
| FontFile.NoOverflow | Kernel/drivers/extra/aosbf.c:355-372 | the reader's overflow tests never fire |
| FontFile.CheckRecord | Kernel/drivers/extra/aosbf.c:330-380 | a record passes exactly if it starts inside the buffer and, when usable, its bitmap lies there too |
| FontFile.Validate | Kernel/drivers/extra/aosbf.c:290-388 | the first pass accepts exactly the buffers whose header and records pass the tests, and its count is the number of usable glyphs |
| FontFile.TableInsideIff | Kernel/drivers/extra/aosbf.c:335-348 | the table of an accepted font reaches at most one record too far, and lies inside the buffer if and only if the count in the header fits |
| FontFile.MadeNext | Kernel/drivers/extra/aosbf.c:428-446 | one more record keeps table, fallback and atlas in step, the last marked record being the fallback |
| FontFile.Convert | Kernel/drivers/extra/aosbf.c:403-447 | the second pass comes to its end exactly if the packer accepts every usable glyph in turn |
| FontFile.ReadFont | Kernel/drivers/extra/aosbf.c:285-458 | it succeeds exactly on accepted fonts whose glyphs the packer accepts in turn; then the atlas holds exactly the usable glyphs of the file in order, the glyph table lists their records at their places, and the fallback glyph is the last marked one |
| FontRoundTrip.GlyphComesBack | Kernel/drivers/extra/aosbf.c:401-418 | the reader sees the record that was written, and the slice it takes is the bitmap that was pushed for it |
| FontRoundTrip.MetricsComeBack | CommandLine/bdfconv/src/aosbf.c:292-307 | each number that the font library gave for a character, and the place of its bitmap, arrives in its own member of the record that the reader sees |
| FontRoundTrip.MarkedIff | CommandLine/bdfconv/src/aosbf.c:229-236 | exactly U+FFFD, and a question mark before any U+FFFD, are marked as fallback |
| FontRoundTrip.WrittenFontReadsBack | CommandLine/bdfconv/src/aosbf.c:317-374 | a written font is accepted if and only if some character has pixels, and then the reader's glyphs and records are exactly those of the pushed bitmaps |
| FontRoundTrip.WrittenFontIsRead | Kernel/drivers/extra/aosbf.c:285-458 | a written font is read to the end if and only if some character has pixels, memory for the table is granted and the packer accepts the pushed bitmaps in turn |
| FontRoundTrip.WrittenTableInside | CommandLine/bdfconv/src/aosbf.c:317-374 | every font that the converter lays out has its table inside the file |
| FontRoundTrip.AcceptedBehindTheBuffer | Kernel/drivers/extra/aosbf.c:335-348 | a written font with one glyph too many in its header is accepted, and its last record is read from behind the buffer |

## Left out

- Pager.Pager.Map: takes the next table frames from a supply that does not run out, because the code does not test for the null result of a failing allocation; the extra virtual reservation of `alloc_page_table` is not modelled.
- Pager.Pager.EnsureDirectory: the same supply.
- Pager.Pager.MapSmall: the same supply.
- Pager.Pager.MapRange: sums of addresses do not wrap at 2^64, and the flat result is stated for page-aligned arguments below 2^48; for others only the tree and the end of the loop are.
- FlatMap.RangeIsExact: ranges below the physical limit, onto pages without a translation or a huge mark, with flags that do not already carry PAGE_HUGE, which no caller passes.
- FlatMap.RangeMapsEveryByte: the same ranges.
- FlatMap.RangeRefinesPagewise: the same ranges.
- FreeListRuns.RunsKeepMemory: runs without the append that makes the counter wrong (see FreeListRuns.ExactIffHarmless); what that append does is the subject of FreeListSpec.CountLosesMemory.
- FreeListRuns.NoDoubleUse: the same runs.
- Elf.Load: assumes that no loadable segment ends in the last page of the address space (see Elf.HullHoldsIff) and that the file's bytes are apart from the destination; the allocation services are parameters that grant blocks inside memory.
- PhysicalMemory.PhysicalMemory.AllocContiguous: the regions end inside the bitmap (4 GiB), and of each 64-bit bitmap word only the eight bits that the code uses are modelled; the update of the byte count behind the lock is taken as part of the call.
- PhysicalMemory.PhysicalMemory.AllocPage: the same regions and bitmap words.
- PhysicalMemory.PhysicalMemory.FreeContiguous: the same regions and bitmap words.
- PhysicalMemory.PhysicalMemory.FreeOnePage: the same regions and bitmap words.
- Atlas.AtlasData.Place: the overflow tests on the cursor, which cannot fire while calls succeed, are not written out; memory grants are parameters.
- MemoryMap.Normalise: physical ranges end below 2^64; the size of the boot structure is a parameter.
- MemoryMap.StructureIsProtected: concerns a structure that is alone in its descriptor; two in one are the subject of MemoryMap.BothInOneDescriptor.
- Numbers.FillDigits: bases outside 2 to 36, which the code does not test.
- Numbers.U64ToStr: bases outside 2 to 36, which the code does not test, and null pointers.
- Numbers.I64ToStr: bases outside 2 to 36, which the code does not test, and null pointers.
- FontFile.BuildGlyphs: what the font library delivers is the input; the string table is any sequence of bytes, and header fields other than offsets, counts and sizes are taken over.
- FontFile.ReadFont: where the table reaches behind the buffer (see FontFile.TableInsideIff), the bytes of its last record are readable and may be anything.
- FontFile.Validate: the same.
- FontFile.Convert: the same.
- FontFile.CheckRecord: the same.
- FontRoundTrip.WrittenFontReadsBack: for sizes that fit the 16-bit and 32-bit fields and positive pitches.
- Pager: the direct map and `pager_ready`, the bootstrap bump pointer, locks, and the sign extension of virtual addresses (bits 12 to 47 are the page number).
- Shootdown: memory is sequentially consistent; paging-structure caches, the unused full flush and liveness of the locks.
- The header and cache lists of the virtual allocator, `avmf_region_free`, and the physical addresses in cached headers.
- `elf32_load`, `elf64_relocate`, boot of the other processors, their queues, the AML parser, files, PBFS, graphics and all device drivers.
- Floating-point formatting, timers and `rtc_to_timestamp`.
