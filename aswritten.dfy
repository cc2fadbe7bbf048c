/** Where the simulator, as written, departs from a textbook demand-paging manager. Each lemma
    states what the program does in that situation; none of them claims the textbook
    behaviour. */
module AsWritten {
  import opened CTypes
  import opened Params
  import opened Address
  import opened TranslationCache
  import opened PageTable
  import opened Recency
  import opened Paging
  import opened Properties

  /** The TLB starts as sixteen zero entries, each claiming that page 0 is in frame 0. The
      first address of a run whose page truncates to 0 (pages 0, 256, 512 and 768) is
      therefore a TLB hit that reads the zeroed frame 0: no fault, nothing loaded. */
  lemma InitialTlbMapsPageZero(policy: int, backing: seq<int8>, address: int32)
    requires ToUnsignedChar(PageNumber(address)) == 0
    ensures var r := Step(Initial(), policy, backing, address);
      r.1 == Translated(Offset(address), 0) &&
      r.0.tlbHits == 1 && r.0.pageFaults == 0 && r.0.pageTable == Initial().pageTable
  {
    var s := Initial();
    assert FirstMatch(s.tlb, 0) == 0;
    StepOnHit(s, policy, backing, address);
    RecombineFields(0, Offset(address));
  }

  /** Adding 256 pages' worth of bytes adds 256 to the quotient by PAGE_SIZE. */
  lemma QuotientOfShift(a: nat)
    ensures (a + 0x4_0000) / PAGE_SIZE == a / PAGE_SIZE + 0x100
  {
    var q, r := a / PAGE_SIZE, a % PAGE_SIZE;
    assert a + 0x4_0000 == PAGE_SIZE * (q + 0x100) + r;
    ModOfDecomposition(a + 0x4_0000, PAGE_SIZE, q + 0x100, r);
  }

  lemma RemainderOfShift(q: nat)
    requires q % PAGES < PAGES - 0x100
    ensures (q + 0x100) % PAGES == q % PAGES + 0x100
  {
    var d, r := q / PAGES, q % PAGES;
    assert q + 0x100 == PAGES * d + (r + 0x100);
    ModOfDecomposition(q + 0x100, PAGES, d, r + 0x100);
  }

  /** Pages 256 apart share a TLB tag, since the page number is passed as an unsigned char. */
  lemma PagesAliasInTlb(a: int32, b: int32)
    requires 0 <= a && PageNumber(a) < PAGES - 0x100 && b == a + 0x4_0000
    ensures PageNumber(b) == PageNumber(a) + 0x100
    ensures ToUnsignedChar(PageNumber(b)) == ToUnsignedChar(PageNumber(a))
  {
    var q := a / PAGE_SIZE;
    SplitMeaning(a);
    SplitMeaning(b);
    QuotientOfShift(a);
    assert b / PAGE_SIZE == q + 0x100;
    RemainderOfShift(q);
    ToUnsignedCharAliases(PageNumber(a));
  }

  /** Page numbers 256 apart share a TLB tag: right after an address misses and completes, the
      address 256 pages further on hits the TLB and reads the first address's frame, although
      its own page was never loaded and is still unmapped; no fault is counted for it. */
  lemma AliasedPageHitsUnloaded(s: State, policy: int, backing: seq<int8>, a: int32, b: int32)
    requires WellFormed(s) && Lookup(s.tlb, ToUnsignedChar(PageNumber(a))) == -1
    requires 0 <= a && PageNumber(a) < PAGES - 0x100 && b == a + 0x4_0000
    requires s.pageTable[PageNumber(a) + 0x100] == UNMAPPED
    requires Step(s, policy, backing, a).1.Translated?
    ensures var first := Step(s, policy, backing, a);
      var frame := first.1.physicalAddress / PAGE_SIZE;
      var second := Step(first.0, policy, backing, b);
      PageNumber(b) == PageNumber(a) + 0x100 && first.0.pageTable[PageNumber(b)] == UNMAPPED &&
      second.0.pageFaults == first.0.pageFaults && second.0.tlbHits == first.0.tlbHits + 1 &&
      second.1 == Translated(PhysicalAddress(frame, Offset(b)), first.0.memory[frame * PAGE_SIZE + Offset(b)])
  {
    PagesAliasInTlb(a, b);
    MissThenHit(s, policy, backing, a, b);
    StepUnmapsNothingElse(s, policy, backing, a, PageNumber(b));
  }

  /** The free-frame test `free_page_int <= FRAMES` admits FRAMES + 1 allocations. On the last
      one `free_page` has wrapped to 0, so the faulting page is mapped to frame 0 while the
      page already there keeps its mapping: two pages share one frame. */
  lemma ExtraAllocationSharesFrameZero(s: State, policy: int, backing: seq<int8>, address: int32)
    requires Inv(s) && s.freePageInt == FRAMES
    requires Lookup(s.tlb, ToUnsignedChar(PageNumber(address))) == -1
    requires s.pageTable[PageNumber(address)] == UNMAPPED
    requires Covers(backing, PageNumber(address)) && !FreesHead(s.lru, address)
    ensures var page := PageNumber(address); var q := OwnerOf(s.pageTable, 0);
      var r := Step(s, policy, backing, address).0;
      0 <= q < PAGES && q != page &&
      r.pageTable[q] == 0 && r.pageTable[page] == 0 &&
      r.freePage == 1 && r.freePageInt == FRAMES + 1
  {
    FreeFrameFault(s, policy, backing, address);
    OwnerFoundIffOwned(s.pageTable, 0);
  }

  /** A FIFO eviction invalidates no TLB entry: a slot that named the evicted page survives
      (unless it is the one overwritten), so the TLB still sends that page to the frame that
      now holds the faulting page. */
  lemma FifoEvictionLeavesStaleEntry(s: State, backing: seq<int8>, address: int32, j: nat)
    requires WellFormed(s) && Lookup(s.tlb, ToUnsignedChar(PageNumber(address))) == -1
    requires s.pageTable[PageNumber(address)] == UNMAPPED && s.freePageInt > FRAMES
    requires OwnerOf(s.pageTable, s.freePage) != -1
    requires Covers(backing, PageNumber(address)) && !FreesHead(s.lru, address)
    requires j < TLB_SIZE && j != s.tlbIndex % TLB_SIZE
    requires s.tlb[j] == TlbEntry(ToUnsignedChar(OwnerOf(s.pageTable, s.freePage)), s.freePage)
    ensures var victim := OwnerOf(s.pageTable, s.freePage);
      var r := Step(s, FIFO, backing, address).0;
      r.pageTable[victim] == UNMAPPED && r.pageTable[PageNumber(address)] == s.freePage &&
      r.tlb[j] == TlbEntry(ToUnsignedChar(victim), s.freePage)
  {
    FifoFault(s, backing, address);
    InsertTouchesOneSlot(s.tlb, s.tlbIndex, ToUnsignedChar(PageNumber(address)), ToUnsignedChar(s.freePage));
  }

  /** The recency record is keyed by the whole logical address, not by its page: after a
      completed miss the tail record names the address, and for any address from PAGE_SIZE
      on that key differs from the page number. */
  lemma RecencyRecordNamesAddress(s: State, policy: int, backing: seq<int8>, address: int32)
    requires WellFormed(s) && Lookup(s.tlb, ToUnsignedChar(PageNumber(address))) == -1
    requires s.pageTable[PageNumber(address)] != UNMAPPED && !FreesHead(s.lru, address)
    requires IndexOf(s.lru, address) != -1 || |s.lru| < FRAMES
    ensures var f := s.pageTable[PageNumber(address)];
      var lru := Step(s, policy, backing, address).0.lru;
      0 < |lru| && lru[|lru| - 1] == LruEntry(address, f) &&
      (address >= PAGE_SIZE ==> lru[|lru| - 1].logical != PageNumber(address))
  {
    PageTableHit(s, policy, backing, address);
    RequeueMeaning(s.lru, address, s.pageTable[PageNumber(address)]);
  }

  /** Requeueing a key keeps the head's frame, whether the key's record was the whole list or
      stood behind the head, when the record re-appended carries the head's frame. */
  lemma RequeueKeepsHeadFrame(entries: seq<LruEntry>, l: int)
    requires 0 < |entries| <= FRAMES && !FreesHead(entries, l)
    ensures var after := Requeued(entries, l, entries[0].physical);
      |after| > 0 && after[0].physical == entries[0].physical
  {
    var k := IndexOf(entries, l);
    var removed := Removed(entries, l);
    AppendMeaning(removed, l, entries[0].physical);
    if k > 0 {
      assert removed[0] == entries[0];
    } else if k == 0 {
      assert removed == [];
    }
  }

  /** The LRU eviction unlinks the record whose key equals the victim's page number, but the
      keys are logical addresses. When every record's address is at least PAGE_SIZE nothing
      is unlinked, the head record stays, and the next eviction takes the same frame again. */
  lemma LruEvictionKeepsHeadFrame(s: State, backing: seq<int8>, address: int32)
    requires WellFormed(s) && Lookup(s.tlb, ToUnsignedChar(PageNumber(address))) == -1
    requires s.pageTable[PageNumber(address)] == UNMAPPED && s.freePageInt > FRAMES
    requires |s.lru| > 0 && OwnerOf(s.pageTable, s.lru[0].physical) != -1
    requires Covers(backing, PageNumber(address)) && !FreesHead(s.lru, address)
    requires forall i :: 0 <= i < |s.lru| ==> s.lru[i].logical >= PAGE_SIZE
    ensures var r := Step(s, LRU, backing, address).0;
      |r.lru| > 0 && r.lru[0].physical == s.lru[0].physical
  {
    var victim := OwnerOf(s.pageTable, s.lru[0].physical);
    IndexOfMeaning(s.lru, victim, 0);
    assert Removed(s.lru, victim) == s.lru;
    LruFault(s, backing, address);
    RequeueKeepsHeadFrame(s.lru, address);
  }

  /** Unlinking the head record by `remove_from_lru(logical_address)` leaves the freed node
      as the head while the list stays non-empty, so the `add_to_lru` that follows walks freed
      memory: the run stops there. */
  lemma RequeueOfHeadStops(s: State, policy: int, backing: seq<int8>, address: int32)
    requires WellFormed(s) && Lookup(s.tlb, ToUnsignedChar(PageNumber(address))) == -1
    requires s.pageTable[PageNumber(address)] != UNMAPPED && FreesHead(s.lru, address)
    ensures Step(s, policy, backing, address).1 == Stopped(FreedLruHead)
    ensures Step(s, policy, backing, address).0 == s
  {
    StepOnMiss(s, policy, backing, address);
  }

  /** `mmap` maps only MEMORY_SIZE bytes of the backing store, one frame's worth per frame,
      so a fault on a page from FRAMES up copies from past the mapping, whatever branch
      handles it: the run stops there. */
  lemma HighPageFaultStops(s: State, policy: int, file: seq<int8>, address: int32)
    requires WellFormed(s) && Lookup(s.tlb, ToUnsignedChar(PageNumber(address))) == -1
    requires s.pageTable[PageNumber(address)] == UNMAPPED && PageNumber(address) >= FRAMES
    ensures Step(s, policy, Mapped(file), address).1.Stopped?
  {
    StepOnMiss(s, policy, Mapped(file), address);
    assert !Covers(Mapped(file), PageNumber(address));
  }
}
