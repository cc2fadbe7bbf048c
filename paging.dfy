/** One pass of the simulator's main loop, as a function of the whole simulation state:
    split the address, try the TLB, then the page table, handle a page fault with the free-frame,
    FIFO or LRU branch, refresh the TLB and the recency list, and read the byte addressed. */
module Paging {
  import opened CTypes
  import opened Params
  import opened Address
  import opened TranslationCache
  import opened PageTable
  import opened Recency

  datatype Option<T> = None | Some(value: T)

  /** Everything one loop iteration reads or writes: the TLB and `tlbindex`, the page table,
      the recency list, main memory, `free_page`, `free_page_int` and the three counters. */
  datatype State = State(
    tlb: seq<TlbEntry>,
    tlbIndex: nat,
    pageTable: seq<int>,
    lru: seq<LruEntry>,
    memory: seq<int8>,
    freePage: byte,
    freePageInt: nat,
    totalAddresses: nat,
    tlbHits: nat,
    pageFaults: nat)

  /** The ways an iteration can reach undefined behaviour in C, after which the run means nothing. */
  datatype Undefined =
    | ReadPastBackingStore(page: int)  // memcpy from beyond the mapped part of the backing store
    | PageTableUnderflow(frame: int)   // get_logical_address found no page, then pagetable[-1] = -1
    | NullLruHead                       // lru_list.head->physical with an empty list
    | FreedLruHead                      // the recency list is walked from its freed head node
    | NoFrameChosen(policy: int)        // neither FIFO nor LRU: physical_page stays -1 and is used

  /** What an iteration prints, or where it stopped being defined. */
  datatype Outcome = Translated(physicalAddress: int, value: int8) | Stopped(cause: Undefined)

  /** The result of the page-table and fault-handling part of an iteration: the state and the
      frame the page now occupies, or the undefined behaviour reached on the way. */
  datatype Resolution = Resolved(next: State, frame: int) | Aborted(cause: Undefined)

  /** The shapes and ranges every iteration relies on. */
  ghost predicate WellFormed(s: State)
  {
    |s.tlb| == TLB_SIZE && |s.pageTable| == PAGES && |s.memory| == MEMORY_SIZE &&
    |s.lru| <= FRAMES &&
    (forall i :: 0 <= i < |s.pageTable| ==> UNMAPPED <= s.pageTable[i] < FRAMES) &&
    (forall e :: e in s.lru ==> 0 <= e.physical < FRAMES)
  }

  /** The state before the first address: zeroed TLB, every page -1, empty list, zeroed memory. */
  function Initial(): (s: State)
    ensures WellFormed(s)
  {
    State(seq(TLB_SIZE, _ => ZERO_ENTRY), 0, seq(PAGES, _ => UNMAPPED), [],
          seq(MEMORY_SIZE, _ => 0), 0, 0, 0, 0, 0)
  }

  /** `mmap` maps MEMORY_SIZE bytes of the backing file, so that is at most what can be read. */
  function Mapped(file: seq<int8>): (backing: seq<int8>)
    ensures |backing| <= MEMORY_SIZE
    ensures |backing| <= |file| && backing == file[..|backing|]
    ensures |file| <= MEMORY_SIZE ==> backing == file
  {
    if |file| <= MEMORY_SIZE then file else file[..MEMORY_SIZE]
  }

  /** The page's bytes lie inside the mapped backing store. */
  predicate Covers(backing: seq<int8>, page: nat)
  {
    (page + 1) * PAGE_SIZE <= |backing|
  }

  function PageBytes(backing: seq<int8>, page: nat): (bytes: seq<int8>)
    requires Covers(backing, page)
    ensures |bytes| == PAGE_SIZE
  {
    backing[page * PAGE_SIZE .. (page + 1) * PAGE_SIZE]
  }

  /** Memory after copying a page into a frame. */
  function LoadFrame(memory: seq<int8>, frame: nat, bytes: seq<int8>): (m: seq<int8>)
    requires |memory| == MEMORY_SIZE && frame < FRAMES && |bytes| == PAGE_SIZE
    ensures |m| == MEMORY_SIZE
  {
    memory[..frame * PAGE_SIZE] + bytes + memory[(frame + 1) * PAGE_SIZE..]
  }

  /** The copy replaces the frame's PAGE_SIZE bytes and nothing else. */
  lemma LoadFrameAt(memory: seq<int8>, frame: nat, bytes: seq<int8>, i: nat)
    requires |memory| == MEMORY_SIZE && frame < FRAMES && |bytes| == PAGE_SIZE && i < MEMORY_SIZE
    ensures LoadFrame(memory, frame, bytes)[i] ==
      if frame * PAGE_SIZE <= i < (frame + 1) * PAGE_SIZE then bytes[i - frame * PAGE_SIZE] else memory[i]
  {
  }

  /** After the copy the frame holds exactly the page's bytes. */
  lemma LoadFrameHolds(memory: seq<int8>, frame: nat, bytes: seq<int8>)
    requires |memory| == MEMORY_SIZE && frame < FRAMES && |bytes| == PAGE_SIZE
    ensures LoadFrame(memory, frame, bytes)[frame * PAGE_SIZE .. (frame + 1) * PAGE_SIZE] == bytes
  {
    var before := memory[..frame * PAGE_SIZE];
    assert |before| == frame * PAGE_SIZE;
  }

  /** The page-fault branches: the "free" frame while `free_page_int <= FRAMES`, otherwise the
      policy's eviction; any other policy leaves no frame chosen. */
  function Fault(s: State, policy: int, backing: seq<int8>, page: nat): (r: Resolution)
    requires WellFormed(s) && page < PAGES
    ensures r.Resolved? ==> WellFormed(r.next) && 0 <= r.frame < FRAMES
  {
    if s.freePageInt <= FRAMES then TakeFreeFrame(s, backing, page)
    else if policy == FIFO then EvictFifo(s, backing, page)
    else if policy == LRU then EvictLru(s, backing, page)
    else Aborted(NoFrameChosen(policy))
  }

  /** No replacement: load the page into frame `free_page` and advance both cursors. The test
      that leads here admits FRAMES + 1 allocations, and `free_page` wraps at 256. */
  function TakeFreeFrame(s: State, backing: seq<int8>, page: nat): (r: Resolution)
    requires WellFormed(s) && page < PAGES
    ensures r.Resolved? ==> WellFormed(r.next) && 0 <= r.frame < FRAMES
  {
    if !Covers(backing, page) then Aborted(ReadPastBackingStore(page))
    else
      var f := s.freePage;
      Resolved(s.(memory := LoadFrame(s.memory, f, PageBytes(backing, page)),
                  pageTable := s.pageTable[page := f],
                  freePage := ToUnsignedChar(f + 1),
                  freePageInt := s.freePageInt + 1,
                  pageFaults := s.pageFaults + 1), f)
  }

  /** FIFO: unmap the lowest page holding frame `free_page`, then reuse that frame. */
  function EvictFifo(s: State, backing: seq<int8>, page: nat): (r: Resolution)
    requires WellFormed(s) && page < PAGES
    ensures r.Resolved? ==> WellFormed(r.next) && 0 <= r.frame < FRAMES
  {
    var victim := OwnerOf(s.pageTable, s.freePage);
    if victim == -1 then Aborted(PageTableUnderflow(s.freePage))
    else if !Covers(backing, page) then Aborted(ReadPastBackingStore(page))
    else
      var f := s.freePage;
      Resolved(s.(memory := LoadFrame(s.memory, f, PageBytes(backing, page)),
                  pageTable := s.pageTable[victim := UNMAPPED][page := f],
                  freePage := ToUnsignedChar(f + 1),
                  freePageInt := s.freePageInt + 1,
                  pageFaults := s.pageFaults + 1), f)
  }

  /** LRU: take the frame of the list's head record, unmap the lowest page holding it, drop
      that page's record (looked up by page number), and reuse the frame. */
  function EvictLru(s: State, backing: seq<int8>, page: nat): (r: Resolution)
    requires WellFormed(s) && page < PAGES
    ensures r.Resolved? ==> WellFormed(r.next) && 0 <= r.frame < FRAMES
  {
    if |s.lru| == 0 then Aborted(NullLruHead)
    else
      var f := s.lru[0].physical;
      var victim := OwnerOf(s.pageTable, f);
      if victim == -1 then Aborted(PageTableUnderflow(f))
      else
        RemovedOnlyDrops(s.lru, victim);
        var lru := Removed(s.lru, victim);
        if !Covers(backing, page) then Aborted(ReadPastBackingStore(page))
        else if FreesHead(s.lru, victim) then Aborted(FreedLruHead)
        else
          Resolved(s.(memory := LoadFrame(s.memory, f, PageBytes(backing, page)),
                      pageTable := s.pageTable[victim := UNMAPPED][page := f],
                      lru := lru,
                      pageFaults := s.pageFaults + 1), f)
  }

  /** After a TLB miss: add the translation to the TLB, then move the record for the whole
      logical address (not the page) to the tail of the recency list, part2.c:267-270. */
  function Refresh(s: State, page: nat, frame: int, address: int32): (r: Resolution)
    requires WellFormed(s) && 0 <= frame < FRAMES
    ensures r.Resolved? ==> WellFormed(r.next) && r.frame == frame
  {
    RequeueMeaning(s.lru, address, frame);
    if FreesHead(s.lru, address) then Aborted(FreedLruHead)
    else
      Resolved(s.(tlb := Insert(s.tlb, s.tlbIndex, ToUnsignedChar(page), ToUnsignedChar(frame)),
                  tlbIndex := s.tlbIndex + 1,
                  lru := Requeued(s.lru, address, frame)), frame)
  }

  /** The TLB-miss path: the page table, a fault if the page is not resident, then the refresh. */
  function Miss(s: State, policy: int, backing: seq<int8>, page: nat, address: int32): (r: Resolution)
    requires WellFormed(s) && page < PAGES
    ensures r.Resolved? ==> WellFormed(r.next) && 0 <= r.frame < FRAMES
  {
    var entry := s.pageTable[page];
    var found := if entry != UNMAPPED then Resolved(s, entry) else Fault(s, policy, backing, page);
    match found
    case Aborted(_) => found
    case Resolved(s1, f) => Refresh(s1, page, f, address)
  }

  /** One iteration of the main loop on the logical address `address`. When it reaches
      undefined behaviour, the state returned is the one before the iteration. */
  function Step(s: State, policy: int, backing: seq<int8>, address: int32): (r: (State, Outcome))
    requires WellFormed(s)
    ensures WellFormed(r.0)
  {
    var offset := Offset(address);
    var page := PageNumber(address);
    var hit := Lookup(s.tlb, ToUnsignedChar(page));
    if hit != -1 then
      (Counted(s).(tlbHits := s.tlbHits + 1),
       Translated(PhysicalAddress(hit, offset), s.memory[hit * PAGE_SIZE + offset]))
    else
      var m := Miss(Counted(s), policy, backing, page, address);
      (if m.Aborted? then s else m.next, Answer(m, offset))
  }

  /** `total_addresses++` at the top of the loop body. */
  function Counted(s: State): (r: State)
    requires WellFormed(s)
    ensures WellFormed(r)
  {
    s.(totalAddresses := s.totalAddresses + 1)
  }

  /** What an iteration reports after a TLB miss: the undefined behaviour the miss path reached,
      or the physical address and the byte stored there in the frame it resolved to. */
  function Answer(m: Resolution, offset: nat): (o: Outcome)
    requires offset < PAGE_SIZE
    requires m.Resolved? ==> WellFormed(m.next) && 0 <= m.frame < FRAMES
    ensures o.Stopped? <==> m.Aborted?
    ensures o.Translated? ==> o.physicalAddress % PAGE_SIZE == offset && o.physicalAddress / PAGE_SIZE == m.frame
  {
    if m.Aborted? then Stopped(m.cause)
    else
      RecombineFields(m.frame, offset);
      Translated(PhysicalAddress(m.frame, offset), m.next.memory[m.frame * PAGE_SIZE + offset])
  }

  /** An iteration whose TLB search hits counts the hit and reads memory at the frame found. */
  lemma StepOnHit(s: State, policy: int, backing: seq<int8>, address: int32)
    requires WellFormed(s)
    requires Lookup(s.tlb, ToUnsignedChar(PageNumber(address))) != -1
    ensures var f := Lookup(s.tlb, ToUnsignedChar(PageNumber(address)));
      Step(s, policy, backing, address).0 == Counted(s).(tlbHits := s.tlbHits + 1) &&
      Step(s, policy, backing, address).1 ==
        Translated(PhysicalAddress(f, Offset(address)), s.memory[f * PAGE_SIZE + Offset(address)])
  {
  }

  /** An iteration whose TLB search misses is the miss path run on the counted state. */
  lemma StepOnMiss(s: State, policy: int, backing: seq<int8>, address: int32)
    requires WellFormed(s)
    requires Lookup(s.tlb, ToUnsignedChar(PageNumber(address))) == -1
    ensures var m := Miss(Counted(s), policy, backing, PageNumber(address), address);
      Step(s, policy, backing, address).1 == Answer(m, Offset(address)) &&
      Step(s, policy, backing, address).0 == if m.Aborted? then s else m.next
  {
  }

  /** Whether a list of outcomes ends with undefined behaviour. */
  predicate EndsStopped(outs: seq<Outcome>)
  {
    outs != [] && outs[|outs| - 1].Stopped?
  }

  /** The main loop over a trace of addresses, one iteration per address in order; once an
      iteration reaches undefined behaviour nothing further is run or recorded. */
  function Run(s: State, policy: int, backing: seq<int8>, trace: seq<int32>): (r: (State, seq<Outcome>))
    requires WellFormed(s)
    ensures WellFormed(r.0)
    ensures |r.1| <= |trace|
    decreases |trace|
  {
    if trace == [] then (s, [])
    else
      var before := Run(s, policy, backing, trace[..|trace| - 1]);
      if EndsStopped(before.1) then before
      else
        var step := Step(before.0, policy, backing, trace[|trace| - 1]);
        (step.0, before.1 + [step.1])
  }

  /** One more address on a run that has not stopped is one more step from where it stands. */
  lemma RunExtends(s: State, policy: int, backing: seq<int8>, trace: seq<int32>, i: nat)
    requires WellFormed(s) && i < |trace|
    requires !EndsStopped(Run(s, policy, backing, trace[..i]).1)
    ensures var before := Run(s, policy, backing, trace[..i]);
      var step := Step(before.0, policy, backing, trace[i]);
      Run(s, policy, backing, trace[..i + 1]).0 == step.0 &&
      Run(s, policy, backing, trace[..i + 1]).1 == before.1 + [step.1]
  {
    var done := trace[..i + 1];
    assert done[..|done| - 1] == trace[..i];
  }

  /** After the first undefined behaviour, further addresses change neither the state nor the
      outcomes. */
  lemma {:induction false} RunAfterStop(s: State, policy: int, backing: seq<int8>, trace: seq<int32>, k: nat)
    requires WellFormed(s) && k <= |trace|
    requires EndsStopped(Run(s, policy, backing, trace[..k]).1)
    ensures Run(s, policy, backing, trace) == Run(s, policy, backing, trace[..k])
    decreases |trace| - k
  {
    if k == |trace| {
      assert trace[..k] == trace;
    } else {
      var longer := trace[..k + 1];
      assert longer[..|longer| - 1] == trace[..k];
      assert Run(s, policy, backing, longer) == Run(s, policy, backing, trace[..k]);
      RunAfterStop(s, policy, backing, trace, k + 1);
    }
  }
}
