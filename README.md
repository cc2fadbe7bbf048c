# Demand-paged address translation, modelled in Dafny

`part2.c` simulates the address-translation path of a demand-paged virtual memory manager. It
reads a trace of logical addresses. It splits each address into a page number and a 10-bit
offset. It looks the page up in a 16-entry TLB, and on a miss in a 1024-entry page table. On a
page fault it copies the page from a memory-mapped backing store into one of 256 frames: a
free frame while one is left, or afterwards a frame chosen by FIFO or by an LRU list. After
every TLB miss, whether the page table held the page or a fault loaded it, it writes the
translation to the TLB and moves the address's record to the tail of the LRU list. Finally it
reads the byte addressed. This project models that core. It proves what the code does,
including where the code departs from a textbook memory manager.

The model follows the program's structure:

| file | module | models |
|---|---|---|
| `params.dfy` | `Params` | the compile-time constants |
| `ctypes.dfy` | `CTypes` | 32-bit `int`, `unsigned char`, `signed char`, and the conversion to `unsigned char` |
| `address.dfy` | `Address` | the split of a logical address and the rebuilt physical address, with `&`, `>>` and `\|` defined bit by bit |
| `tlb.dfy` | `TranslationCache` | `search_tlb` and `add_to_tlb`, as functions on the slot sequence and as a class over the TLB array |
| `pagetable.dfy` | `PageTable` | `get_logical_address`, as a function and as a loop over the page-table array |
| `lru.dfy` | `Recency` | `add_to_lru` and `remove_from_lru` on the recency list, kept as a sequence plus its `size` |
| `paging.dfy` | `Paging` | one pass of the main loop, and a whole run, as functions of a value `State` |
| `simulator.dfy` | `Simulation` | the program's global state as one class plus the loop body; each method is proved equal to the `Paging` function it implements |
| `properties.dfy` | `Properties` | the invariant of the main loop; what each branch of an iteration does; the undefined behaviour a run never reaches |
| `residency.dfy` | `Residency` | what every run over the mapped backing store can reach: no frame is ever replaced, and the page table stays one-to-one |
| `aswritten.dfy` | `AsWritten` | the behaviours in which the program departs from a textbook manager |

C's undefined behaviour is modelled explicitly. When an iteration would dereference a null or
freed list head, write `pagetable[-1]`, copy from past the mapped backing store, or use frame
-1, the model stops with `Stopped(cause)`. After that the run has no meaning, and nothing more
is recorded.

Inputs that the program gets from I/O are parameters here:
- the replacement policy, which the program gets from `atoi(argv[2])`;
- the contents of the backing-store file, of which `mmap` maps the first `MEMORY_SIZE` bytes (`Paging.Mapped`);
- the trace, as the sequence of `int` values that `atoi` returned for each line.

## Model

| member | source | states |
|---|---|---|
| CTypes.ToUnsignedChar | part2.c:29-32 | the converted value is a byte congruent to the input modulo 256, and equal to it for inputs 0..255 |
| CTypes.ToUnsignedCharAliases | part2.c:135 | values 256 apart become the same `unsigned char` |
| Address.BitAnd | part2.c:212-213 | C's `&` on non-negative values, bit by bit; `MaskIsRemainder` gives its value for a mask 2^k - 1 |
| Address.BitOr | part2.c:273 | C's `\|` on non-negative values, bit by bit; `OrIntoZeroBits` gives its value when the bits do not overlap |
| Address.Bits | part2.c:212 | the two's complement pattern of an `int` is below 2^32 |
| Address.ShiftRightOffsetBits | part2.c:213 | `>> OFFSET_BITS` on an `int` as an arithmetic shift; `PageIsMiddleBits` gives the page number it leads to |
| Address.And | part2.c:212-213 | `&` of an `int` with a non-negative mask, through its two's complement pattern; `OffsetIsLowBits` gives its value for OFFSET_MASK |
| Address.Offset | part2.c:212 | the offset is below PAGE_SIZE |
| Address.PageNumber | part2.c:213 | the page number is below PAGES |
| Address.MaskIsRemainder | part2.c:212 | masking with 2^k - 1 leaves the value modulo 2^k |
| Address.OrIntoZeroBits | part2.c:273 | OR-ing a value below 2^k into a multiple of 2^k adds them |
| Address.OffsetIsLowBits | part2.c:212 | the offset is the address modulo 1024, negative addresses included |
| Address.PageIsMiddleBits | part2.c:213 | the page number is the address divided by 1024 (rounding down), modulo 1024 |
| Address.SplitMeaning | part2.c:212-213 | the offset and the page number as arithmetic on the address |
| Address.SplitRecombines | part2.c:212-213 | an address below 2^20 is its page times PAGE_SIZE plus its offset, and rebuilding it from those two gives it back |
| Address.PhysicalAddress | part2.c:273 | `frame << OFFSET_BITS \| offset`; `RecombineFields` shows it is frame * 1024 + offset, with the offset and the frame recoverable |
| Address.RecombineFields | part2.c:273 | the physical address is frame * 1024 + offset: its low 10 bits are the offset and the bits above are the frame |
| TranslationCache.FirstMatch | part2.c:137-143 | the scan answers -1 or an index, at or after its start, of a slot whose tag matches |
| TranslationCache.FirstMatchMeaning | part2.c:137-143 | the scan answers -1 exactly when no slot from the start matches, and no slot before its answer matches |
| TranslationCache.Lookup | part2.c:135-144 | `search_tlb` answers -1 or a byte |
| TranslationCache.LookupMeaning | part2.c:135-144 | -1 exactly when no slot holds the tag; otherwise the frame of the lowest-index slot that does |
| TranslationCache.Insert | part2.c:147-155 | the slots after `add_to_tlb`; `InsertTouchesOneSlot` and `SearchAfterInsert` state what it changes and what a search then finds |
| TranslationCache.InsertTouchesOneSlot | part2.c:147-155 | an insertion writes (l, p) into slot `tlbindex % 16` and leaves the other 15 slots as they were |
| TranslationCache.SearchAfterInsert | part2.c:135-155 | after inserting (l, p), a search for l returns p, unless a lower slot than the one written already matched l |
| TranslationCache.Tlb.constructor | part2.c:50-52 | the TLB starts as 16 zero entries with an insertion count of 0 |
| TranslationCache.Tlb.Search | part2.c:135-144 | the loop returns `Lookup` of the slots: -1 exactly when no slot matches, else a matching slot's frame; it changes nothing |
| TranslationCache.Tlb.Add | part2.c:147-155 | the slots become `Insert` of the old slots, and the count goes up by exactly one |
| PageTable.OwnerOf | part2.c:158-166 | the reverse lookup answers -1 or a page at or after its start that holds the frame |
| PageTable.OwnerOfMeaning | part2.c:158-166 | it answers -1 exactly when no page from the start holds the frame, and no page before its answer holds it |
| PageTable.OwnerFoundIffOwned | part2.c:158-166 | the reverse lookup succeeds exactly when some page holds the frame |
| PageTable.GetLogicalAddress | part2.c:158-166 | the loop returns the smallest page holding the frame, or -1 exactly when there is none; it reads the table without changing it |
| Recency.IndexOf | part2.c:104-115 | the search answers -1 or the index of a record for the key |
| Recency.IndexOfMeaning | part2.c:104-115 | it answers -1 exactly when no record from the start has the key, and none before its answer has it |
| Recency.Appended | part2.c:70-94 | the list after `add_to_lru`; `AppendMeaning` and `AppendedOnlyAdds` state its effect |
| Recency.AppendMeaning | part2.c:70-94 | below FRAMES records, appending adds (l, p) at the tail and keeps the earlier records in order; at FRAMES it changes nothing; the list never exceeds FRAMES |
| Recency.AppendedOnlyAdds | part2.c:70-94 | appending brings in no record other than (l, p) and at most one |
| Recency.Removed | part2.c:96-116 | the list after `remove_from_lru`; `RemoveMeaning` and `RemovedOnlyDrops` state its effect |
| Recency.RemovedFrame | part2.c:96-116 | what `remove_from_lru` returns; `RemoveMeaning` states that it is the unlinked record's frame, or -1 |
| Recency.RemoveMeaning | part2.c:96-116 | removal unlinks the first record for l, keeps the others in order, shrinks the list by one and answers that record's frame; with no such record it answers -1 and changes nothing |
| Recency.RemovedOnlyDrops | part2.c:96-116 | removal brings in no record and never grows the list |
| Recency.Requeued | part2.c:269-270 | the list after the remove-then-add of the main loop; `RequeueMeaning` states its effect |
| Recency.RequeueMeaning | part2.c:269-270 | removal and re-append keep the list non-empty and within FRAMES records, bring in only (l, p), and leave (l, p) last whenever l was present or there was room |
| Recency.RemoveUndoesAppend | part2.c:70-116 | removing a key just appended to a list without it restores the list and answers the appended frame |
| Recency.LruList.constructor | part2.c:39-47 | the list starts empty, with no freed head |
| Recency.LruList.Add | part2.c:70-94 | the records become `Appended` of the old ones; a freed head stays freed only when the append is skipped |
| Recency.LruList.Remove | part2.c:96-116 | the records become `Removed`, the answer is `RemovedFrame`, and the head is freed exactly when the first record is unlinked |
| Recency.LruList.Requeue | part2.c:269-270 | it reports exactly when the removal frees the head of a list that stays non-empty; otherwise the records become `Requeued` |
| Paging.Initial | part2.c:186-202 | the state before the loop is well formed |
| Paging.Mapped | part2.c:181 | the mapping is the file's first MEMORY_SIZE bytes, or the whole file if it is shorter |
| Paging.Covers | part2.c:181 | whether a page lies inside the mapped backing store; `CoveredPageIsLow` shows that only the first FRAMES pages do |
| Paging.PageBytes | part2.c:234 | a page of the backing store is PAGE_SIZE bytes |
| Paging.LoadFrame | part2.c:234 | copying a page into a frame keeps main memory at MEMORY_SIZE bytes |
| Paging.LoadFrameAt | part2.c:234 | the copy sets the frame's bytes to the page's and leaves every other byte as it was |
| Paging.LoadFrameHolds | part2.c:234 | after the copy the frame holds exactly the page's bytes |
| Paging.Fault | part2.c:225-265 | a fault that resolves gives a well-formed state and a frame below FRAMES |
| Paging.TakeFreeFrame | part2.c:227-240 | the free-frame branch keeps the state well formed and yields a frame below FRAMES |
| Paging.EvictFifo | part2.c:241-251 | the FIFO branch keeps the state well formed and yields a frame below FRAMES |
| Paging.EvictLru | part2.c:252-264 | the LRU branch keeps the state well formed and yields a frame below FRAMES |
| Paging.Refresh | part2.c:267-270 | the refresh keeps the state well formed and leaves the frame as it is |
| Paging.Miss | part2.c:222-271 | the miss path keeps the state well formed and yields a frame below FRAMES |
| Paging.Step | part2.c:206-277 | an iteration keeps the state well formed |
| Paging.Counted | part2.c:207 | counting an address keeps the state well formed |
| Paging.Answer | part2.c:273-274 | after a miss the outcome stops exactly when the miss path did; otherwise the physical address has the offset as its remainder and the frame as its quotient |
| Paging.StepOnHit | part2.c:217-220 | a TLB hit counts the address and the hit, and reads memory at the frame found |
| Paging.StepOnMiss | part2.c:222-274 | a TLB miss is the miss path on the counted state; on a stop the state is left as it was |
| Paging.Run | part2.c:206-277 | a run stays well formed and records at most one outcome per address |
| Paging.RunExtends | part2.c:206-277 | one more address on a run that has not stopped is one more iteration from where the run stands |
| Paging.RunAfterStop | part2.c:206-277 | after the first undefined behaviour, further addresses change neither the state nor the outcomes |
| Simulation.Simulator.constructor | part2.c:186-202 | the fields start as `Initial()`: page table all -1, zero TLB, memory and counters, empty list; the backing store is the mapped file |
| Simulation.Simulator.LoadPage | part2.c:234 | main memory becomes `LoadFrame` of the old memory with the page's bytes |
| Simulation.Simulator.HandleFault | part2.c:225-265 | the fault handler stops exactly when `Fault` aborts, with its cause; otherwise the new state and frame are `Fault`'s |
| Simulation.Simulator.TakeFreeFrame | part2.c:227-240 | the free-frame branch in place equals `Paging.TakeFreeFrame` |
| Simulation.Simulator.EvictFifo | part2.c:241-251 | the FIFO branch in place equals `Paging.EvictFifo`, through the real reverse-lookup loop |
| Simulation.Simulator.EvictLru | part2.c:252-264 | the LRU branch in place equals `Paging.EvictLru`, including the freed-head stop |
| Simulation.Simulator.Refresh | part2.c:267-270 | the TLB and list refresh in place equals `Paging.Refresh` |
| Simulation.Simulator.Miss | part2.c:222-271 | the miss path in place equals `Paging.Miss` |
| Simulation.Simulator.Translate | part2.c:206-277 | the outcome of one iteration is `Step`'s, and when it completes the new state is `Step`'s |
| Simulation.Simulator.TranslateMiss | part2.c:222-274 | the outcome after a miss is `Answer` of the miss path, and when it completes the new state is the miss path's |
| Simulation.Simulator.Simulate | part2.c:206-277 | the outcomes of the loop over a trace are `Run`'s, and so is the final state when no undefined behaviour was reached |
| Properties.InvInitial | part2.c:186-202 | the initial state satisfies the loop invariant |
| Properties.MapKeepsOwners | part2.c:236 | mapping an unmapped page to a frame keeps every frame that had a page, and gives that frame one |
| Properties.RemapKeepsOwners | part2.c:243-247 | unmapping the owner of a frame and mapping the faulting page to it leaves every frame that had a page with one |
| Properties.FaultKeepsAllocation | part2.c:225-265 | under every policy, a fault that resolves keeps `free_page == free_page_int % 256`, keeps at most one allocation per fault, counts one fault and leaves every handed-out frame with a page |
| Properties.MissCounts | part2.c:222-271 | the miss path writes the page's translation to slot `tlbindex % 16`, adds one to `tlbindex`, counts at most one fault and no hit |
| Properties.MissKeepsAllocation | part2.c:222-271 | the miss path keeps the allocation facts and leaves the recency list non-empty |
| Properties.StepKeepsInv | part2.c:206-277 | every iteration keeps the loop invariant (the allocation facts, hits plus faults at most the address count, a non-empty list once a frame is handed out) |
| Properties.RunKeepsInv | part2.c:206-277 | a whole run keeps the loop invariant |
| Properties.FaultNeverUnderflows | part2.c:241-264 | under the invariant, neither eviction branch finds no page for its frame, and the LRU branch never finds the list empty |
| Properties.StepNeverUnderflows | part2.c:206-277 | under the invariant, an iteration can only stop by reading past the mapping, at a freed list head, or for want of a policy |
| Properties.StepCounts | part2.c:207 | a completed iteration counts its address once; a stopped one leaves the state as it was |
| Properties.RunRecordsEachAddress | part2.c:206-277 | a run records one outcome per address; only the last can be a stop; the address count is the number of completed iterations |
| Properties.RunNeverUnderflows | part2.c:206-277 | from the initial state, no outcome of any run is a page-table underflow or a null-head dereference |
| Properties.HitChangesOnlyCounters | part2.c:217-220 | a TLB hit adds one to the hit and address counts, and changes no fault count, page table, TLB, list, memory or cursor |
| Properties.PageTableHit | part2.c:222-274 | a TLB miss on a resident page counts no fault and keeps the page table and memory; it writes the translation into the TLB, requeues the address's record, and reads the frame the page table names |
| Properties.FreeFrameFault | part2.c:227-240 | a fault in the free-frame branch maps the page to `free_page` and copies the page into that frame; `free_page` (mod 256), `free_page_int` and the fault count each go up by one; the byte read is the backing store's |
| Properties.FifoFault | part2.c:241-251 | a FIFO fault first unmaps the lowest page holding `free_page`, then behaves as the free-frame branch (a state that only a backing store longer than the mapping reaches, by `NeverEvicts`) |
| Properties.LruFault | part2.c:252-264 | an LRU fault takes the head record's frame, unmaps the lowest page holding it, unlinks that page's record, maps the faulting page there and counts one fault; the cursors do not move (a state that only a backing store longer than the mapping reaches, by `NeverEvicts`) |
| Properties.MissThenHit | part2.c:135-155 | right after an address misses and completes, any address whose page truncates to the same byte hits the TLB at the first address's frame, with no fault |
| Properties.ReaccessRepeatsOutcome | part2.c:206-277 | repeating an address right after it completed, whether it hit or missed the TLB, is a TLB hit with the same physical address and byte |
| Properties.MissUnmapsNothingElse | part2.c:222-271 | the miss path changes no other page's entry except to unmap it |
| Properties.StepUnmapsNothingElse | part2.c:206-277 | an iteration changes no other page's entry except to unmap the page it evicts |
| Residency.MappedCount | part2.c:236 | the number of mapped pages among the first n is at most n |
| Residency.NoneMapped | part2.c:199-202 | with no page mapped, the count is zero |
| Residency.HoleMeansRoom | part2.c:227 | an unmapped page below n leaves the count short of n |
| Residency.MapCounts | part2.c:236 | mapping an unmapped page adds one to the count of every prefix containing it |
| Residency.MapFreshKeepsOneToOne | part2.c:236 | mapping an unmapped page to a frame no page holds keeps the table one-to-one |
| Residency.CoveredPageIsLow | part2.c:181 | a page the `mmap` of MEMORY_SIZE bytes covers is below FRAMES |
| Residency.ResidentInitial | part2.c:186-202 | the initial state satisfies `Resident`: nothing mapped, no frame handed out |
| Residency.FaultKeepsResident | part2.c:225-240 | over the mapped backing store a fault is always the free-frame branch; with FRAMES pages resident it stops reading past the mapping; otherwise it hands out frame `free_page_int`, held by no page, and keeps `Resident` |
| Residency.MissKeepsResident | part2.c:222-271 | the miss path over the mapped backing store keeps `Resident` |
| Residency.StepKeepsResident | part2.c:206-277 | every iteration over the mapped backing store keeps `Resident` |
| Residency.RunKeepsResident | part2.c:206-277 | a whole run over the mapped backing store keeps `Resident` |
| Residency.NeverEvicts | part2.c:225-265 | after any run from the start over the mapped backing store, at most FRAMES frames are handed out, no two pages share a frame, and every further fault is the free-frame branch: FIFO and LRU replacement never run |
| Residency.FullMemoryFaultStops | part2.c:227-240 | once FRAMES pages are resident, a fault under any policy stops reading past the mapping instead of replacing a frame |
| AsWritten.InitialTlbMapsPageZero | part2.c:50 | the first address of a run whose page truncates to 0 is a TLB hit that reads zeroed frame 0: no fault, nothing loaded |
| AsWritten.PagesAliasInTlb | part2.c:213-217 | the page of `a + 0x40000` is 256 above that of `a`, and both have the same TLB tag |
| AsWritten.AliasedPageHitsUnloaded | part2.c:135-155 | right after a miss on `a`, the address 256 pages on hits `a`'s frame although its own page is unmapped |
| AsWritten.ExtraAllocationSharesFrameZero | part2.c:227-240 | over a backing store longer than the mapping, the 257th allocation maps the faulting page to frame 0, which another page still holds |
| AsWritten.FifoEvictionLeavesStaleEntry | part2.c:241-251 | over a backing store longer than the mapping, a FIFO eviction leaves a TLB slot sending the evicted page to the frame that now holds another page |
| AsWritten.RecencyRecordNamesAddress | part2.c:269-270 | the record moved to the tail is keyed by the whole logical address, which differs from the page number from PAGE_SIZE on |
| AsWritten.RequeueKeepsHeadFrame | part2.c:269-270 | requeueing any key with the head's frame, unless that frees the head, leaves a head with the same frame |
| AsWritten.LruEvictionKeepsHeadFrame | part2.c:255-258 | over a backing store longer than the mapping, when every record's address is at least PAGE_SIZE, an LRU eviction unlinks nothing, and the head's frame is the next victim again |
| AsWritten.RequeueOfHeadStops | part2.c:104-109 | requeueing the head record of a list with more than one record stops the run at the freed head |
| AsWritten.HighPageFaultStops | part2.c:181 | any fault on a page from 256 up copies from past the mapped backing store: the run stops |

## As written

These behaviours of the code differ from the design of a textbook demand-paging manager. The
model follows the code, and each behaviour is a lemma in `AsWritten`.

`mmap` maps only the first `MEMORY_SIZE` bytes of the backing store, which is FRAMES pages.
The free-frame branch never unmaps a page. So a defined run loads at most FRAMES distinct
pages, each into a frame of its own. A fault on any further page reads past the mapping, and
the run stops there (`Residency.NeverEvicts`, `Residency.FullMemoryFaultStops`). In every
defined run the page table is one-to-one, and neither the FIFO nor the LRU branch ever runs.
The first, second and fifth items below are therefore about `Step` over a backing store longer
than the mapping. As the program is written, they are reachable only through undefined
behaviour. They say what the replacement code would do if it ever ran.

- **The free-frame test admits one allocation too many.** The test `free_page_int <= FRAMES`
  admits 257 allocations. By the last one, `free_page` has wrapped to 0, so two pages would map
  to frame 0 (`ExtraAllocationSharesFrameZero`; over a longer backing store only).
- **Eviction does not invalidate the TLB.** After an eviction, a TLB entry could still send the
  evicted page to a frame that now holds another page (`FifoEvictionLeavesStaleEntry`; over a
  longer backing store only). In every branch, the miss path writes exactly one TLB slot
  (`MissCounts`).
- **The TLB does not start empty.** It starts as zero entries, so page 0 (and pages 256, 512
  and 768) hit frame 0 before anything is loaded (`InitialTlbMapsPageZero`).
- **TLB tags are truncated.** The TLB stores page numbers as `unsigned char`, so pages 256
  apart are one TLB key. Right after a page is loaded, the page 256 above it hits its frame
  without a fault (`PagesAliasInTlb`, `AliasedPageHitsUnloaded`). This happens in defined runs.
- **The recency list is keyed by address, not by page.** The list holds one record per logical
  address and is capped at FRAMES records (`RecencyRecordNamesAddress`). The LRU eviction looks
  its victim up by page number. For addresses from 1024 on, that lookup never matches, so the
  same frame would be evicted again and again (`LruEvictionKeepsHeadFrame`; over a longer
  backing store only).
- **Unlinking the head leaves a dangling pointer.** Removing the head record leaves the freed
  node as the list head. The next `add_to_lru` walks from it, which is undefined
  (`RequeueOfHeadStops`). Defined runs can reach this.
- **Only the first 256 pages of the backing store are mapped.** Only `MEMORY_SIZE` bytes are
  mapped, so any fault on a page from 256 up reads past the mapping (`HighPageFaultStops`).

The code does hold these properties:
- the loop invariant (`StepKeepsInv`, `RunKeepsInv`);
- neither the `pagetable[-1]` write nor the null-head dereference can ever happen (`RunNeverUnderflows`);
- FIFO and LRU eviction take only frames that some page holds (`FaultNeverUnderflows`);
- over the mapped backing store, no frame is ever replaced, and no two pages share a frame (`NeverEvicts`);
- repeating an address right after it completed is a hit with the same answer (`ReaccessRepeatsOutcome`).

## Left out

- Argument checking, `open`/`fopen`, and printing per-address lines and statistics (part2.c:170-184, 276, 279-290): I/O. The floating-point hit and fault rates are output only.
- `fgets` with its 10-byte buffer, and `atoi`: the trace is given as the integers `atoi` returned. A line longer than the buffer, split across two reads, is not modelled.
- `mmap` failure, and a backing file shorter than the page read: the model treats any page beyond the mapped bytes as a read past the mapping, so the run stops. The real program reads zeros up to the end of the last mapped page and faults after that.
- `malloc`, `free` and `free_lru_list` (part2.c:74, 109, 118-133): memory management. The only effect kept is that the freed head stays the list's head.
- `max` (part2.c:62-67): unused.
- Counter overflow: `total_addresses`, `tlb_hits`, `page_faults`, `tlbindex` and `free_page_int` are unbounded naturals. The C `int` counters overflow only after 2^31 addresses.
- The right shift of a negative `int` is taken to be arithmetic, as the compilers the program targets implement it.
- Simulation.Simulator.Translate: when the iteration reaches undefined behaviour, the contract says nothing about the object's state, since the C program's state is then undefined.
- Simulation.Simulator.Simulate: after the first undefined behaviour, the contract gives the outcomes but not the object's state, for the same reason.
