/** Facts about whole iterations and runs of the main loop: what each branch of an iteration
    does, the invariant every iteration keeps, the undefined behaviours the loop can never
    reach, and the places where the program departs from a textbook memory manager. */
module Properties {
  import opened CTypes
  import opened Params
  import opened Address
  import opened TranslationCache
  import opened PageTable
  import opened Recency
  import opened Paging

  // ---------------------------------------------------------------------------------------
  // The invariant of the main loop
  // ---------------------------------------------------------------------------------------

  /** Every frame the free-frame branch has handed out is still held by some page. */
  ghost predicate AllocatedOwned(s: State)
  {
    forall f :: 0 <= f < s.freePageInt && f < FRAMES ==> Owned(s.pageTable, f)
  }

  /** What fault handling keeps: `free_page` is `free_page_int` as an unsigned char, every
      allocation was a fault, and no handed-out frame has lost all its pages. */
  ghost predicate Allocation(s: State)
  {
    WellFormed(s) &&
    s.freePage == s.freePageInt % 0x100 &&
    s.freePageInt <= s.pageFaults &&
    AllocatedOwned(s)
  }

  /** What holds between iterations: the allocation facts, at most one hit or fault per
      address, and a non-empty recency list once a frame has been handed out. */
  ghost predicate Inv(s: State)
  {
    Allocation(s) &&
    s.tlbHits + s.pageFaults <= s.totalAddresses &&
    (s.freePageInt > 0 ==> |s.lru| > 0)
  }

  lemma InvInitial()
    ensures Inv(Initial())
  {
  }

  /** Mapping an unmapped page to `f` keeps every frame that had a page and adds `f`. */
  lemma MapKeepsOwners(t: seq<int>, page: nat, f: int, g: int)
    requires page < |t| && t[page] == UNMAPPED && 0 <= g
    requires Owned(t, g) || g == f
    ensures Owned(t[page := f], g)
  {
    var t' := t[page := f];
    if g == f {
      assert t'[page] == f;
    } else {
      var i :| 0 <= i < |t| && t[i] == g;
      assert t'[i] == g;
    }
  }

  /** Unmapping a page that holds `f` and mapping an unmapped page to `f` leaves every frame
      that had a page with one. */
  lemma RemapKeepsOwners(t: seq<int>, victim: nat, page: nat, f: int, g: int)
    requires victim < |t| && page < |t| && t[victim] == f && t[page] == UNMAPPED && 0 <= g
    requires Owned(t, g)
    ensures Owned(t[victim := UNMAPPED][page := f], g)
  {
    var t' := t[victim := UNMAPPED][page := f];
    if g == f {
      assert t'[page] == f;
    } else {
      var i :| 0 <= i < |t| && t[i] == g;
      assert t'[i] == g;
    }
  }

  lemma NextUnsignedChar(n: nat)
    ensures ToUnsignedChar(n % 0x100 + 1) == (n + 1) % 0x100
  {
  }

  /** A fault on an unmapped page that resolves keeps the allocation facts and counts one
      fault, under every policy. */
  lemma FaultKeepsAllocation(s: State, policy: int, backing: seq<int8>, page: nat)
    requires Allocation(s) && page < PAGES && s.pageTable[page] == UNMAPPED
    ensures var r := Fault(s, policy, backing, page);
      r.Resolved? ==> Allocation(r.next) && r.next.pageFaults == s.pageFaults + 1
  {
    var r := Fault(s, policy, backing, page);
    if r.Resolved? {
      var t := s.pageTable;
      if s.freePageInt <= FRAMES {
        NextUnsignedChar(s.freePageInt);
        forall g | 0 <= g < r.next.freePageInt && g < FRAMES ensures Owned(r.next.pageTable, g) {
          MapKeepsOwners(t, page, s.freePage, g);
        }
      } else if policy == FIFO {
        NextUnsignedChar(s.freePageInt);
        var victim := OwnerOf(t, s.freePage);
        forall g | 0 <= g < r.next.freePageInt && g < FRAMES ensures Owned(r.next.pageTable, g) {
          RemapKeepsOwners(t, victim, page, s.freePage, g);
        }
      } else {
        var victim := OwnerOf(t, s.lru[0].physical);
        forall g | 0 <= g < r.next.freePageInt && g < FRAMES ensures Owned(r.next.pageTable, g) {
          RemapKeepsOwners(t, victim, page, s.lru[0].physical, g);
        }
      }
    }
  }

  /** The TLB-miss path writes the page's translation into TLB slot `tlbindex % 16`, counts at
      most one fault and touches neither the address count nor the hit count. */
  lemma MissCounts(s: State, policy: int, backing: seq<int8>, page: nat, address: int32)
    requires WellFormed(s) && page < PAGES
    ensures var m := Miss(s, policy, backing, page, address);
      m.Resolved? ==>
        m.next.tlb == Insert(s.tlb, s.tlbIndex, ToUnsignedChar(page), ToUnsignedChar(m.frame)) &&
        m.next.tlbIndex == s.tlbIndex + 1 &&
        m.next.totalAddresses == s.totalAddresses && m.next.tlbHits == s.tlbHits &&
        s.pageFaults <= m.next.pageFaults <= s.pageFaults + 1
  {
  }

  /** The TLB-miss path keeps the allocation facts and leaves a non-empty recency list. */
  lemma MissKeepsAllocation(s: State, policy: int, backing: seq<int8>, page: nat, address: int32)
    requires Allocation(s) && page < PAGES
    ensures var m := Miss(s, policy, backing, page, address);
      m.Resolved? ==> Allocation(m.next) && |m.next.lru| > 0
  {
    var found :=
      if s.pageTable[page] != UNMAPPED then Resolved(s, s.pageTable[page]) else Fault(s, policy, backing, page);
    if s.pageTable[page] == UNMAPPED {
      FaultKeepsAllocation(s, policy, backing, page);
    }
    if found.Resolved? {
      RequeueMeaning(found.next.lru, address, found.frame);
    }
  }

  /** Every iteration keeps the invariant. */
  lemma StepKeepsInv(s: State, policy: int, backing: seq<int8>, address: int32)
    requires Inv(s)
    ensures Inv(Step(s, policy, backing, address).0)
  {
    var page := PageNumber(address);
    if Lookup(s.tlb, ToUnsignedChar(page)) != -1 {
      StepOnHit(s, policy, backing, address);
    } else {
      StepOnMiss(s, policy, backing, address);
      MissCounts(Counted(s), policy, backing, page, address);
      MissKeepsAllocation(Counted(s), policy, backing, page, address);
    }
  }

  /** A whole run keeps the invariant. */
  lemma {:induction false} RunKeepsInv(s: State, policy: int, backing: seq<int8>, trace: seq<int32>)
    requires Inv(s)
    ensures Inv(Run(s, policy, backing, trace).0)
    decreases |trace|
  {
    if trace != [] {
      var before := Run(s, policy, backing, trace[..|trace| - 1]);
      RunKeepsInv(s, policy, backing, trace[..|trace| - 1]);
      if !EndsStopped(before.1) {
        StepKeepsInv(before.0, policy, backing, trace[|trace| - 1]);
      }
    }
  }

  // ---------------------------------------------------------------------------------------
  // Undefined behaviour the loop never reaches
  // ---------------------------------------------------------------------------------------

  /** Under the invariant, fault handling never takes `get_logical_address`'s -1 and never
      reads the head of an empty recency list: every handed-out frame has a page, and the
      eviction branches only run once all FRAMES frames have been handed out. */
  lemma FaultNeverUnderflows(s: State, policy: int, backing: seq<int8>, page: nat)
    requires Inv(s) && page < PAGES
    ensures var r := Fault(s, policy, backing, page);
      r.Aborted? ==> r.cause.ReadPastBackingStore? || r.cause.FreedLruHead? || r.cause.NoFrameChosen?
  {
    if s.freePageInt > FRAMES {
      if policy == FIFO {
        OwnerFoundIffOwned(s.pageTable, s.freePage);
      } else if policy == LRU {
        assert s.lru[0] in s.lru;
        OwnerFoundIffOwned(s.pageTable, s.lru[0].physical);
      }
    }
  }

  /** The undefined behaviours that remain possible under the invariant: reading past the
      mapped backing store, walking the recency list from its freed head, and a policy that
      is neither FIFO nor LRU. */
  predicate Reachable(o: Outcome)
  {
    o.Stopped? ==> o.cause.ReadPastBackingStore? || o.cause.FreedLruHead? || o.cause.NoFrameChosen?
  }

  /** Under the invariant no iteration underflows the page table or dereferences a null head. */
  lemma StepNeverUnderflows(s: State, policy: int, backing: seq<int8>, address: int32)
    requires Inv(s)
    ensures Reachable(Step(s, policy, backing, address).1)
  {
    var page := PageNumber(address);
    if Lookup(s.tlb, ToUnsignedChar(page)) == -1 {
      StepOnMiss(s, policy, backing, address);
      assert Inv(Counted(s));
      FaultNeverUnderflows(Counted(s), policy, backing, page);
    }
  }

  /** A completed iteration counts its address; a stopped one leaves the state as it was. */
  lemma StepCounts(s: State, policy: int, backing: seq<int8>, address: int32)
    requires WellFormed(s)
    ensures var r := Step(s, policy, backing, address);
      (r.1.Translated? ==> r.0.totalAddresses == s.totalAddresses + 1) &&
      (r.1.Stopped? ==> r.0 == s)
  {
    var page := PageNumber(address);
    if Lookup(s.tlb, ToUnsignedChar(page)) == -1 {
      StepOnMiss(s, policy, backing, address);
      MissCounts(Counted(s), policy, backing, page, address);
    }
  }

  /** A run records one outcome per address until the first undefined behaviour, which is
      the last outcome recorded; the address count is the number of completed iterations. */
  lemma {:induction false} RunRecordsEachAddress(s: State, policy: int, backing: seq<int8>, trace: seq<int32>)
    requires WellFormed(s)
    ensures var r := Run(s, policy, backing, trace);
      (forall i :: 0 <= i < |r.1| - 1 ==> r.1[i].Translated?) &&
      (!EndsStopped(r.1) ==> |r.1| == |trace|) &&
      r.0.totalAddresses == s.totalAddresses + |r.1| - (if EndsStopped(r.1) then 1 else 0)
    decreases |trace|
  {
    if trace != [] {
      var before := Run(s, policy, backing, trace[..|trace| - 1]);
      RunRecordsEachAddress(s, policy, backing, trace[..|trace| - 1]);
      if !EndsStopped(before.1) {
        StepCounts(before.0, policy, backing, trace[|trace| - 1]);
      }
    }
  }

  /** From a state satisfying the invariant, and so from the initial one, no outcome of a
      run is a page-table underflow or a null-head dereference. */
  lemma {:induction false} RunNeverUnderflows(s: State, policy: int, backing: seq<int8>, trace: seq<int32>)
    requires Inv(s)
    ensures forall o :: o in Run(s, policy, backing, trace).1 ==> Reachable(o)
    decreases |trace|
  {
    if trace != [] {
      var init := trace[..|trace| - 1];
      var before := Run(s, policy, backing, init);
      RunNeverUnderflows(s, policy, backing, init);
      if !EndsStopped(before.1) {
        RunKeepsInv(s, policy, backing, init);
        var step := Step(before.0, policy, backing, trace[|trace| - 1]);
        StepNeverUnderflows(before.0, policy, backing, trace[|trace| - 1]);
        assert Run(s, policy, backing, trace).1 == before.1 + [step.1];
      }
    }
  }

  // ---------------------------------------------------------------------------------------
  // The branches of one iteration
  // ---------------------------------------------------------------------------------------

  /** A TLB hit counts the address and the hit and changes nothing else: no fault, and the
      same page table, TLB, recency list, memory and allocation cursors. */
  lemma HitChangesOnlyCounters(s: State, policy: int, backing: seq<int8>, address: int32)
    requires WellFormed(s) && Lookup(s.tlb, ToUnsignedChar(PageNumber(address))) != -1
    ensures var r := Step(s, policy, backing, address).0;
      r.tlbHits == s.tlbHits + 1 && r.totalAddresses == s.totalAddresses + 1 &&
      r.pageFaults == s.pageFaults && r.pageTable == s.pageTable &&
      r.tlb == s.tlb && r.tlbIndex == s.tlbIndex && r.lru == s.lru && r.memory == s.memory &&
      r.freePage == s.freePage && r.freePageInt == s.freePageInt
  {
    StepOnHit(s, policy, backing, address);
  }

  /** A TLB miss on a resident page: no fault, the same page table and memory, the
      translation written to the TLB, the record for the address moved to the tail of the
      recency list, and the byte read from the frame the page table names. */
  lemma PageTableHit(s: State, policy: int, backing: seq<int8>, address: int32)
    requires WellFormed(s) && Lookup(s.tlb, ToUnsignedChar(PageNumber(address))) == -1
    requires s.pageTable[PageNumber(address)] != UNMAPPED
    requires !FreesHead(s.lru, address)
    ensures var page := PageNumber(address); var f := s.pageTable[page];
      var r := Step(s, policy, backing, address);
      r.0.pageFaults == s.pageFaults && r.0.tlbHits == s.tlbHits &&
      r.0.pageTable == s.pageTable && r.0.memory == s.memory &&
      r.0.freePage == s.freePage && r.0.freePageInt == s.freePageInt &&
      r.0.tlb == Insert(s.tlb, s.tlbIndex, ToUnsignedChar(page), ToUnsignedChar(f)) &&
      r.0.lru == Requeued(s.lru, address, f) &&
      r.1 == Translated(f * PAGE_SIZE + Offset(address), s.memory[f * PAGE_SIZE + Offset(address)])
  {
    StepOnMiss(s, policy, backing, address);
    RecombineFields(s.pageTable[PageNumber(address)], Offset(address));
  }

  /** A fault while `free_page_int <= FRAMES`: the page is copied into frame `free_page` and
      mapped to it, `free_page` (as an unsigned char), `free_page_int` and the fault count
      each go up by one, and the byte read is the backing store's. */
  lemma FreeFrameFault(s: State, policy: int, backing: seq<int8>, address: int32)
    requires WellFormed(s) && Lookup(s.tlb, ToUnsignedChar(PageNumber(address))) == -1
    requires s.pageTable[PageNumber(address)] == UNMAPPED && s.freePageInt <= FRAMES
    requires Covers(backing, PageNumber(address)) && !FreesHead(s.lru, address)
    ensures var page := PageNumber(address); var f := s.freePage as int;
      var r := Step(s, policy, backing, address);
      r.0.pageTable == s.pageTable[page := f] &&
      r.0.freePage == ToUnsignedChar(f + 1) && r.0.freePageInt == s.freePageInt + 1 &&
      r.0.pageFaults == s.pageFaults + 1 && r.0.tlbHits == s.tlbHits &&
      r.0.memory[f * PAGE_SIZE .. (f + 1) * PAGE_SIZE] == PageBytes(backing, page) &&
      r.0.tlb == Insert(s.tlb, s.tlbIndex, ToUnsignedChar(page), ToUnsignedChar(f)) &&
      r.0.lru == Requeued(s.lru, address, f) &&
      r.1 == Translated(f * PAGE_SIZE + Offset(address), backing[page * PAGE_SIZE + Offset(address)])
  {
    var page := PageNumber(address);
    StepOnMiss(s, policy, backing, address);
    assert Fault(Counted(s), policy, backing, page) == TakeFreeFrame(Counted(s), backing, page);
    RecombineFields(s.freePage, Offset(address));
    LoadFrameHolds(s.memory, s.freePage, PageBytes(backing, page));
    LoadFrameAt(s.memory, s.freePage, PageBytes(backing, page), s.freePage * PAGE_SIZE + Offset(address));
  }

  /** A FIFO fault once the free frames are spent: the lowest page holding frame `free_page`
      is unmapped, the faulting page takes the frame, and the cursors and fault count go up
      by one as in the free-frame branch. */
  lemma FifoFault(s: State, backing: seq<int8>, address: int32)
    requires WellFormed(s) && Lookup(s.tlb, ToUnsignedChar(PageNumber(address))) == -1
    requires s.pageTable[PageNumber(address)] == UNMAPPED && s.freePageInt > FRAMES
    requires OwnerOf(s.pageTable, s.freePage) != -1
    requires Covers(backing, PageNumber(address)) && !FreesHead(s.lru, address)
    ensures var page := PageNumber(address); var f := s.freePage as int;
      var victim := OwnerOf(s.pageTable, f);
      var r := Step(s, FIFO, backing, address);
      victim != page && s.pageTable[victim] == f &&
      r.0.pageTable == s.pageTable[victim := UNMAPPED][page := f] &&
      r.0.freePage == ToUnsignedChar(f + 1) && r.0.freePageInt == s.freePageInt + 1 &&
      r.0.pageFaults == s.pageFaults + 1 && r.0.tlbHits == s.tlbHits &&
      r.0.memory[f * PAGE_SIZE .. (f + 1) * PAGE_SIZE] == PageBytes(backing, page) &&
      r.0.tlb == Insert(s.tlb, s.tlbIndex, ToUnsignedChar(page), ToUnsignedChar(f)) &&
      r.0.lru == Requeued(s.lru, address, f) &&
      r.1 == Translated(f * PAGE_SIZE + Offset(address), backing[page * PAGE_SIZE + Offset(address)])
  {
    var page := PageNumber(address);
    StepOnMiss(s, FIFO, backing, address);
    assert Fault(Counted(s), FIFO, backing, page) == EvictFifo(Counted(s), backing, page);
    RecombineFields(s.freePage, Offset(address));
    LoadFrameHolds(s.memory, s.freePage, PageBytes(backing, page));
    LoadFrameAt(s.memory, s.freePage, PageBytes(backing, page), s.freePage * PAGE_SIZE + Offset(address));
  }

  /** An LRU fault once the free frames are spent: the frame of the list's head record is
      taken from the lowest page holding it, that page's record is unlinked, the faulting page
      takes the frame, and the allocation cursors stay where they are. */
  lemma LruFault(s: State, backing: seq<int8>, address: int32)
    requires WellFormed(s) && Lookup(s.tlb, ToUnsignedChar(PageNumber(address))) == -1
    requires s.pageTable[PageNumber(address)] == UNMAPPED && s.freePageInt > FRAMES
    requires |s.lru| > 0 && OwnerOf(s.pageTable, s.lru[0].physical) != -1
    requires Covers(backing, PageNumber(address))
    requires !FreesHead(s.lru, OwnerOf(s.pageTable, s.lru[0].physical))
    requires !FreesHead(Removed(s.lru, OwnerOf(s.pageTable, s.lru[0].physical)), address)
    ensures var page := PageNumber(address); var f := s.lru[0].physical;
      var victim := OwnerOf(s.pageTable, f);
      var r := Step(s, LRU, backing, address);
      victim != page && s.pageTable[victim] == f &&
      r.0.pageTable == s.pageTable[victim := UNMAPPED][page := f] &&
      r.0.freePage == s.freePage && r.0.freePageInt == s.freePageInt &&
      r.0.pageFaults == s.pageFaults + 1 && r.0.tlbHits == s.tlbHits &&
      r.0.memory[f * PAGE_SIZE .. (f + 1) * PAGE_SIZE] == PageBytes(backing, page) &&
      r.0.tlb == Insert(s.tlb, s.tlbIndex, ToUnsignedChar(page), ToUnsignedChar(f)) &&
      r.0.lru == Requeued(Removed(s.lru, victim), address, f) &&
      r.1 == Translated(f * PAGE_SIZE + Offset(address), backing[page * PAGE_SIZE + Offset(address)])
  {
    var page := PageNumber(address);
    var f := s.lru[0].physical;
    assert s.lru[0] in s.lru;
    StepOnMiss(s, LRU, backing, address);
    assert Fault(Counted(s), LRU, backing, page) == EvictLru(Counted(s), backing, page);
    RecombineFields(f, Offset(address));
    LoadFrameHolds(s.memory, f, PageBytes(backing, page));
    LoadFrameAt(s.memory, f, PageBytes(backing, page), f * PAGE_SIZE + Offset(address));
  }

  /** Once an address misses the TLB and completes, an address whose page number truncates to
      the same byte hits the TLB on the next iteration, reading the first address's frame
      without a fault. */
  lemma MissThenHit(s: State, policy: int, backing: seq<int8>, a: int32, b: int32)
    requires WellFormed(s) && Lookup(s.tlb, ToUnsignedChar(PageNumber(a))) == -1
    requires Step(s, policy, backing, a).1.Translated?
    requires ToUnsignedChar(PageNumber(b)) == ToUnsignedChar(PageNumber(a))
    ensures var first := Step(s, policy, backing, a);
      var frame := first.1.physicalAddress / PAGE_SIZE;
      var second := Step(first.0, policy, backing, b);
      Lookup(first.0.tlb, ToUnsignedChar(PageNumber(b))) == frame &&
      second.0.pageFaults == first.0.pageFaults && second.0.tlbHits == first.0.tlbHits + 1 &&
      second.1 == Translated(PhysicalAddress(frame, Offset(b)), first.0.memory[frame * PAGE_SIZE + Offset(b)])
  {
    var page := PageNumber(a);
    var first := Step(s, policy, backing, a);
    StepOnMiss(s, policy, backing, a);
    var m := Miss(Counted(s), policy, backing, page, a);
    MissCounts(Counted(s), policy, backing, page, a);
    FirstMatchMeaning(s.tlb, ToUnsignedChar(page), 0);
    SearchAfterInsert(s.tlb, s.tlbIndex, ToUnsignedChar(page), ToUnsignedChar(m.frame));
    StepOnHit(first.0, policy, backing, b);
  }

  /** Repeating an address right after it completed, whether it hit or missed the TLB, is a
      TLB hit that reports the same physical address and the same byte. */
  lemma ReaccessRepeatsOutcome(s: State, policy: int, backing: seq<int8>, a: int32)
    requires WellFormed(s) && Step(s, policy, backing, a).1.Translated?
    ensures var first := Step(s, policy, backing, a);
      var second := Step(first.0, policy, backing, a);
      second.1 == first.1 && second.0.tlbHits == first.0.tlbHits + 1 &&
      second.0.pageFaults == first.0.pageFaults
  {
    if Lookup(s.tlb, ToUnsignedChar(PageNumber(a))) == -1 {
      MissThenHit(s, policy, backing, a, a);
      StepOnMiss(s, policy, backing, a);
    } else {
      StepOnHit(s, policy, backing, a);
      StepOnHit(Step(s, policy, backing, a).0, policy, backing, a);
    }
  }

  /** The TLB-miss path changes the page-table entry of no page other than the faulting one
      and the one evicted for it, and evicts only pages that were mapped. */
  lemma MissUnmapsNothingElse(s: State, policy: int, backing: seq<int8>, page: nat, address: int32, other: nat)
    requires WellFormed(s) && page < PAGES && other < PAGES && other != page
    ensures var m := Miss(s, policy, backing, page, address);
      m.Resolved? ==> m.next.pageTable[other] == s.pageTable[other] || m.next.pageTable[other] == UNMAPPED
  {
  }

  /** An iteration changes the page-table entry of no page other than its own, except to
      unmap the page evicted for it. */
  lemma StepUnmapsNothingElse(s: State, policy: int, backing: seq<int8>, address: int32, other: nat)
    requires WellFormed(s) && other < PAGES && other != PageNumber(address)
    ensures var r := Step(s, policy, backing, address).0;
      r.pageTable[other] == s.pageTable[other] || r.pageTable[other] == UNMAPPED
  {
    if Lookup(s.tlb, ToUnsignedChar(PageNumber(address))) == -1 {
      StepOnMiss(s, policy, backing, address);
      MissUnmapsNothingElse(Counted(s), policy, backing, PageNumber(address), address, other);
    }
  }
}
