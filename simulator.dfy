/** The simulator's global state as one object, and the main loop's body as its methods. */
module Simulation {
  import opened CTypes
  import opened Params
  import opened Address
  import opened TranslationCache
  import opened PageTable
  import opened Recency
  import opened Paging

  class Simulator {
    const policy: int
    const backing: seq<int8>
    const tlb: Tlb
    const pageTable: array<int>
    const lru: LruList
    const memory: array<int8>
    var freePage: byte
    var freePageInt: nat
    var totalAddresses: nat
    var tlbHits: nat
    var pageFaults: nat

    /** The simulation state these fields hold. */
    ghost function Abstract(): State
      reads this, tlb, tlb.slots, lru, pageTable, memory
    {
      State(tlb.slots[..], tlb.inserts, pageTable[..], lru.entries, memory[..],
            freePage, freePageInt, totalAddresses, tlbHits, pageFaults)
    }

    ghost predicate Valid()
      reads this, tlb, tlb.slots, lru, pageTable, memory
    {
      tlb.Valid() && lru.Valid() && !lru.headFreed && WellFormed(Abstract())
    }

    /** The set-up `main` does before its loop: the policy, the mapped backing file, and the
        page table filled with -1; the TLB, list, memory and counters are zero-initialised globals. */
    constructor (policy: int32, file: seq<int8>)
      ensures Valid() && Abstract() == Initial()
      ensures this.policy == policy && backing == Mapped(file)
      ensures fresh(tlb) && fresh(tlb.slots) && fresh(lru) && fresh(pageTable) && fresh(memory)
    {
      var table := new int[PAGES];
      var i := 0;
      while i < PAGES
        invariant 0 <= i <= PAGES
        invariant forall j :: 0 <= j < i ==> table[j] == UNMAPPED
      {
        table[i] := UNMAPPED;
        i := i + 1;
      }
      this.policy := policy;
      backing := Mapped(file);
      tlb := new Tlb();
      lru := new LruList();
      pageTable := table;
      memory := new int8[MEMORY_SIZE](_ => 0);
      freePage, freePageInt := 0, 0;
      totalAddresses, tlbHits, pageFaults := 0, 0, 0;
      new;
      assert pageTable[..] == seq(PAGES, _ => UNMAPPED);
      assert memory[..] == seq(MEMORY_SIZE, _ => 0);
    }

    /** The copy of one page of the backing store into one frame of main memory. */
    method LoadPage(frame: nat, page: nat)
      requires memory.Length == MEMORY_SIZE && frame < FRAMES && Covers(backing, page)
      modifies memory
      ensures memory[..] == LoadFrame(old(memory[..]), frame, PageBytes(backing, page))
    {
      var base := frame * PAGE_SIZE;
      var k := 0;
      while k < PAGE_SIZE
        invariant 0 <= k <= PAGE_SIZE
        invariant forall i :: 0 <= i < base ==> memory[i] == old(memory[i])
        invariant forall i :: base <= i < base + k ==> memory[i] == backing[page * PAGE_SIZE + (i - base)]
        invariant forall i :: base + k <= i < MEMORY_SIZE ==> memory[i] == old(memory[i])
      {
        memory[base + k] := backing[page * PAGE_SIZE + k];
        k := k + 1;
      }
      ghost var want := LoadFrame(old(memory[..]), frame, PageBytes(backing, page));
      forall i | 0 <= i < MEMORY_SIZE ensures memory[..][i] == want[i] {
        LoadFrameAt(old(memory[..]), frame, PageBytes(backing, page), i);
      }
    }

    /** The page-fault branches of the loop body. */
    method HandleFault(page: nat) returns (frame: int, stopped: Option<Undefined>)
      requires Valid() && page < PAGES
      modifies this, lru, pageTable, memory
      ensures tlb.Valid() && lru.Valid()
      ensures stopped.None? ==> lru.Walkable()
      ensures stopped.None? <==> Fault(old(Abstract()), policy, backing, page).Resolved?
      ensures stopped.Some? ==> stopped.value == Fault(old(Abstract()), policy, backing, page).cause
      ensures stopped.None? ==> Abstract() == Fault(old(Abstract()), policy, backing, page).next &&
                                frame == Fault(old(Abstract()), policy, backing, page).frame
    {
      if freePageInt <= FRAMES {
        frame, stopped := TakeFreeFrame(page);
      } else if policy == FIFO {
        frame, stopped := EvictFifo(page);
      } else if policy == LRU {
        frame, stopped := EvictLru(page);
      } else {
        return -1, Some(NoFrameChosen(policy));
      }
    }

    method TakeFreeFrame(page: nat) returns (frame: int, stopped: Option<Undefined>)
      requires Valid() && page < PAGES
      modifies this, pageTable, memory
      ensures tlb.Valid() && lru.Valid()
      ensures stopped.None? ==> lru.Walkable()
      ensures stopped.None? <==> Paging.TakeFreeFrame(old(Abstract()), backing, page).Resolved?
      ensures stopped.Some? ==> stopped.value == Paging.TakeFreeFrame(old(Abstract()), backing, page).cause
      ensures stopped.None? ==> Abstract() == Paging.TakeFreeFrame(old(Abstract()), backing, page).next &&
                                frame == Paging.TakeFreeFrame(old(Abstract()), backing, page).frame
    {
      ghost var r := Paging.TakeFreeFrame(Abstract(), backing, page);
      if !Covers(backing, page) {
        return -1, Some(ReadPastBackingStore(page));
      }
      LoadPage(freePage, page);
      frame := freePage;
      pageTable[page] := frame;
      freePage := ToUnsignedChar(freePage + 1);
      freePageInt := freePageInt + 1;
      pageFaults := pageFaults + 1;
      assert pageTable[..] == r.next.pageTable;
      assert memory[..] == r.next.memory;
      stopped := None;
    }

    method EvictFifo(page: nat) returns (frame: int, stopped: Option<Undefined>)
      requires Valid() && page < PAGES
      modifies this, pageTable, memory
      ensures tlb.Valid() && lru.Valid()
      ensures stopped.None? ==> lru.Walkable()
      ensures stopped.None? <==> Paging.EvictFifo(old(Abstract()), backing, page).Resolved?
      ensures stopped.Some? ==> stopped.value == Paging.EvictFifo(old(Abstract()), backing, page).cause
      ensures stopped.None? ==> Abstract() == Paging.EvictFifo(old(Abstract()), backing, page).next &&
                                frame == Paging.EvictFifo(old(Abstract()), backing, page).frame
    {
      ghost var r := Paging.EvictFifo(Abstract(), backing, page);
      var victim := GetLogicalAddress(pageTable, freePage);
      if victim == -1 {
        return -1, Some(PageTableUnderflow(freePage));
      }
      pageTable[victim] := UNMAPPED;
      if !Covers(backing, page) {
        return -1, Some(ReadPastBackingStore(page));
      }
      LoadPage(freePage, page);
      frame := freePage;
      pageTable[page] := frame;
      freePage := ToUnsignedChar(freePage + 1);
      freePageInt := freePageInt + 1;
      pageFaults := pageFaults + 1;
      assert pageTable[..] == r.next.pageTable;
      assert memory[..] == r.next.memory;
      stopped := None;
    }

    method EvictLru(page: nat) returns (frame: int, stopped: Option<Undefined>)
      requires Valid() && page < PAGES
      modifies this, lru, pageTable, memory
      ensures tlb.Valid() && lru.Valid()
      ensures stopped.None? ==> lru.Walkable()
      ensures stopped.None? <==> Paging.EvictLru(old(Abstract()), backing, page).Resolved?
      ensures stopped.Some? ==> stopped.value == Paging.EvictLru(old(Abstract()), backing, page).cause
      ensures stopped.None? ==> Abstract() == Paging.EvictLru(old(Abstract()), backing, page).next &&
                                frame == Paging.EvictLru(old(Abstract()), backing, page).frame
    {
      ghost var r := Paging.EvictLru(Abstract(), backing, page);
      if lru.size == 0 {
        return -1, Some(NullLruHead);
      }
      // the head of the list is taken to be the least recently used frame
      var victimFrame := lru.entries[0].physical;
      var victim := GetLogicalAddress(pageTable, victimFrame);
      if victim == -1 {
        return -1, Some(PageTableUnderflow(victimFrame));
      }
      pageTable[victim] := UNMAPPED;
      var _ := lru.Remove(victim);
      if !Covers(backing, page) {
        return -1, Some(ReadPastBackingStore(page));
      }
      if !lru.Walkable() {
        return -1, Some(FreedLruHead);
      }
      LoadPage(victimFrame, page);
      frame := victimFrame;
      pageTable[page] := frame;
      pageFaults := pageFaults + 1;
      assert pageTable[..] == r.next.pageTable;
      assert memory[..] == r.next.memory;
      assert lru.entries == r.next.lru;
      stopped := None;
    }

    /** Refresh after a TLB miss: `add_to_tlb`, then `remove_from_lru` and `add_to_lru` keyed by
        the logical address. */
    method Refresh(page: nat, frame: int, address: int32) returns (stopped: Option<Undefined>)
      requires tlb.Valid() && lru.Valid() && lru.Walkable() && WellFormed(Abstract())
      requires 0 <= frame < FRAMES
      modifies tlb, tlb.slots, lru
      ensures stopped.None? <==> Paging.Refresh(old(Abstract()), page, frame, address).Resolved?
      ensures stopped.Some? ==> stopped.value == Paging.Refresh(old(Abstract()), page, frame, address).cause
      ensures stopped.None? ==> Valid() && Abstract() == Paging.Refresh(old(Abstract()), page, frame, address).next
    {
      ghost var s := Abstract();
      ghost var r := Paging.Refresh(s, page, frame, address);
      tlb.Add(ToUnsignedChar(page), ToUnsignedChar(frame));
      var freedHead := lru.Requeue(address, frame);
      if freedHead {
        return Some(FreedLruHead);
      }
      assert tlb.slots[..] == r.next.tlb;
      assert lru.entries == r.next.lru;
      stopped := None;
    }

    /** The TLB-miss path of the loop body: the page table, the fault branches if the page is
        not resident, then the refresh. */
    method Miss(page: nat, address: int32) returns (frame: int, stopped: Option<Undefined>)
      requires Valid() && page < PAGES
      modifies this, tlb, tlb.slots, lru, pageTable, memory
      ensures stopped.None? <==> Paging.Miss(old(Abstract()), policy, backing, page, address).Resolved?
      ensures stopped.Some? ==> stopped.value == Paging.Miss(old(Abstract()), policy, backing, page, address).cause
      ensures stopped.None? ==> Valid() && Abstract() == Paging.Miss(old(Abstract()), policy, backing, page, address).next &&
                                frame == Paging.Miss(old(Abstract()), policy, backing, page, address).frame
    {
      ghost var s := Abstract();
      frame := pageTable[page];
      ghost var found := if frame != UNMAPPED then Resolved(s, frame) else Fault(s, policy, backing, page);
      if frame == UNMAPPED {
        frame, stopped := HandleFault(page);
        if stopped.Some? {
          return;
        }
      }
      assert found.Resolved? && Abstract() == found.next && frame == found.frame;
      stopped := Refresh(page, frame, address);
    }

    /** One iteration of the main loop, without reading the line or printing the result. After
        undefined behaviour the outcome says so and nothing is promised about the state. */
    method Translate(address: int32) returns (out: Outcome)
      requires Valid()
      modifies this, tlb, tlb.slots, lru, pageTable, memory
      ensures out == Step(old(Abstract()), policy, backing, address).1
      ensures out.Translated? ==> Valid() && Abstract() == Step(old(Abstract()), policy, backing, address).0
    {
      ghost var s := Abstract();
      totalAddresses := totalAddresses + 1;
      var offset := Offset(address);
      var page := PageNumber(address);
      var physicalPage := tlb.Search(ToUnsignedChar(page));
      if physicalPage != -1 {
        StepOnHit(s, policy, backing, address);
        tlbHits := tlbHits + 1;
        out := Translated(PhysicalAddress(physicalPage, offset), memory[physicalPage * PAGE_SIZE + offset]);
        return;
      }
      StepOnMiss(s, policy, backing, address);
      assert Abstract() == Counted(s);
      out := TranslateMiss(page, offset, address);
    }

    /** The TLB-miss part of an iteration, ending with the read of main memory. */
    method TranslateMiss(page: nat, offset: nat, address: int32) returns (out: Outcome)
      requires Valid() && page < PAGES && offset < PAGE_SIZE
      modifies this, tlb, tlb.slots, lru, pageTable, memory
      ensures out == Answer(Paging.Miss(old(Abstract()), policy, backing, page, address), offset)
      ensures out.Translated? ==> Valid() && Abstract() == Paging.Miss(old(Abstract()), policy, backing, page, address).next
    {
      ghost var m := Paging.Miss(Abstract(), policy, backing, page, address);
      var frame, stopped := Miss(page, address);
      if stopped.Some? {
        return Stopped(stopped.value);
      }
      assert memory[..] == m.next.memory;
      out := Translated(PhysicalAddress(frame, offset), memory[frame * PAGE_SIZE + offset]);
    }

    /** The main loop over a trace of already parsed addresses. */
    method Simulate(trace: seq<int32>) returns (outs: seq<Outcome>)
      requires Valid()
      modifies this, tlb, tlb.slots, lru, pageTable, memory
      ensures outs == Run(old(Abstract()), policy, backing, trace).1
      ensures !EndsStopped(outs) ==> Valid() && Abstract() == Run(old(Abstract()), policy, backing, trace).0
    {
      ghost var start := Abstract();
      ghost var current := start;
      outs := [];
      var i := 0;
      assert trace[..i] == [];
      while i < |trace|
        invariant 0 <= i <= |trace|
        invariant Valid() && current == Abstract()
        invariant current == Run(start, policy, backing, trace[..i]).0
        invariant outs == Run(start, policy, backing, trace[..i]).1
        invariant !EndsStopped(outs)
      {
        RunExtends(start, policy, backing, trace, i);
        ghost var step := Step(current, policy, backing, trace[i]);
        var out := Translate(trace[i]);
        outs := outs + [out];
        if out.Stopped? {
          RunAfterStop(start, policy, backing, trace, i + 1);
          return;
        }
        current := step.0;
        i := i + 1;
      }
      assert trace[..i] == trace;
    }
  }
}
