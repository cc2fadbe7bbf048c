/** What every run over the backing store as `mmap` maps it can reach. Only the first FRAMES
    pages can be copied in, the free-frame branch never unmaps a page, and so `free_page_int`
    stops at FRAMES: in a defined run no frame is ever replaced (neither the FIFO nor the LRU
    branch runs), the 257th allocation never happens, and the page table stays one-to-one. */
module Residency {
  import opened CTypes
  import opened Params
  import opened Address
  import opened TranslationCache
  import opened PageTable
  import opened Recency
  import opened Paging
  import opened Properties

  /** How many of the first `n` pages are mapped. */
  function MappedCount(t: seq<int>, n: nat): (c: nat)
    requires n <= |t|
    ensures c <= n
  {
    if n == 0 then 0 else MappedCount(t, n - 1) + (if t[n - 1] != UNMAPPED then 1 else 0)
  }

  /** With no page below `n` mapped, the count is zero. */
  lemma {:induction false} NoneMapped(t: seq<int>, n: nat)
    requires n <= |t| && forall i :: 0 <= i < n ==> t[i] == UNMAPPED
    ensures MappedCount(t, n) == 0
  {
    if n > 0 {
      NoneMapped(t, n - 1);
    }
  }

  /** An unmapped page below `n` leaves the count short of `n`. */
  lemma {:induction false} HoleMeansRoom(t: seq<int>, n: nat, page: nat)
    requires page < n <= |t| && t[page] == UNMAPPED
    ensures MappedCount(t, n) < n
  {
    if page < n - 1 {
      HoleMeansRoom(t, n - 1, page);
    }
  }

  /** Mapping an unmapped page adds one to the count of every prefix that contains it. */
  lemma {:induction false} MapCounts(t: seq<int>, n: nat, page: nat, f: int)
    requires n <= |t| && page < |t| && t[page] == UNMAPPED && f != UNMAPPED
    ensures MappedCount(t[page := f], n) == MappedCount(t, n) + (if page < n then 1 else 0)
  {
    if n > 0 {
      MapCounts(t, n - 1, page, f);
    }
  }

  /** No two pages share a frame. */
  ghost predicate OneToOne(t: seq<int>)
  {
    forall p, q :: 0 <= p < q < |t| && t[p] != UNMAPPED ==> t[p] != t[q]
  }

  /** Mapping an unmapped page to a frame no page holds keeps the table one-to-one. */
  lemma MapFreshKeepsOneToOne(t: seq<int>, page: nat, f: int)
    requires page < |t| && t[page] == UNMAPPED && f != UNMAPPED && OneToOne(t)
    requires forall p :: 0 <= p < |t| ==> t[p] != f
    ensures OneToOne(t[page := f])
  {
  }

  /** A page the mapped backing store covers is one of the first FRAMES pages. */
  lemma CoveredPageIsLow(file: seq<int8>, page: nat)
    requires Covers(Mapped(file), page)
    ensures page < FRAMES
  {
  }

  /** What holds in every state of a defined run: `free_page_int` has not passed FRAMES and
      counts the mapped pages, every mapped page is among the first FRAMES and holds one of the
      frames handed out so far, and no two pages share a frame. */
  ghost predicate Resident(s: State)
  {
    WellFormed(s) &&
    s.freePage == s.freePageInt % 0x100 && s.freePageInt <= FRAMES &&
    (forall p :: 0 <= p < PAGES && s.pageTable[p] != UNMAPPED ==> p < FRAMES && s.pageTable[p] < s.freePageInt) &&
    MappedCount(s.pageTable, FRAMES) == s.freePageInt &&
    OneToOne(s.pageTable)
  }

  lemma ResidentInitial()
    ensures Resident(Initial())
  {
    NoneMapped(Initial().pageTable, FRAMES);
  }

  /** A fault over the mapped backing store is always the free-frame branch. Once FRAMES pages
      are resident every page it covers is mapped, so the fault stops reading past the mapping;
      before that it hands out frame `free_page_int`, which no page holds yet. */
  lemma FaultKeepsResident(s: State, policy: int, file: seq<int8>, page: nat)
    requires Resident(s) && page < PAGES && s.pageTable[page] == UNMAPPED
    ensures var r := Fault(s, policy, Mapped(file), page);
      r == TakeFreeFrame(s, Mapped(file), page) &&
      (s.freePageInt == FRAMES ==> r == Aborted(ReadPastBackingStore(page))) &&
      (r.Resolved? ==> Resident(r.next) && r.frame == s.freePageInt && r.next.freePageInt == s.freePageInt + 1)
  {
    var backing := Mapped(file);
    assert Fault(s, policy, backing, page) == TakeFreeFrame(s, backing, page);
    if Covers(backing, page) {
      CoveredPageIsLow(file, page);
      HoleMeansRoom(s.pageTable, FRAMES, page);
      var f: int := s.freePage;
      assert f == s.freePageInt;
      var t := s.pageTable[page := f];
      MapCounts(s.pageTable, FRAMES, page, f);
      MapFreshKeepsOneToOne(s.pageTable, page, f);
      NextUnsignedChar(s.freePageInt);
      var r := TakeFreeFrame(s, backing, page);
      assert r.next.pageTable == t;
      assert forall p :: 0 <= p < PAGES && t[p] != UNMAPPED ==> p < FRAMES && t[p] < s.freePageInt + 1;
    }
  }

  /** The TLB-miss path over the mapped backing store keeps `Resident`. */
  lemma MissKeepsResident(s: State, policy: int, file: seq<int8>, page: nat, address: int32)
    requires Resident(s) && page < PAGES
    ensures var m := Miss(s, policy, Mapped(file), page, address);
      m.Resolved? ==> Resident(m.next)
  {
    if s.pageTable[page] == UNMAPPED {
      FaultKeepsResident(s, policy, file, page);
    }
  }

  /** Every iteration over the mapped backing store keeps `Resident`. */
  lemma StepKeepsResident(s: State, policy: int, file: seq<int8>, address: int32)
    requires Resident(s)
    ensures Resident(Step(s, policy, Mapped(file), address).0)
  {
    var page := PageNumber(address);
    if Lookup(s.tlb, ToUnsignedChar(page)) != -1 {
      StepOnHit(s, policy, Mapped(file), address);
    } else {
      StepOnMiss(s, policy, Mapped(file), address);
      MissKeepsResident(Counted(s), policy, file, page, address);
    }
  }

  /** A whole run over the mapped backing store keeps `Resident`. */
  lemma {:induction false} RunKeepsResident(s: State, policy: int, file: seq<int8>, trace: seq<int32>)
    requires Resident(s)
    ensures Resident(Run(s, policy, Mapped(file), trace).0)
    decreases |trace|
  {
    if trace != [] {
      var before := Run(s, policy, Mapped(file), trace[..|trace| - 1]);
      RunKeepsResident(s, policy, file, trace[..|trace| - 1]);
      if !EndsStopped(before.1) {
        StepKeepsResident(before.0, policy, file, trace[|trace| - 1]);
      }
    }
  }

  /** After any run from the start over the mapped backing store, at most FRAMES frames have
      been handed out, no two pages share a frame, and every fault still to come is the
      free-frame branch: neither FIFO nor LRU replacement ever runs. */
  lemma NeverEvicts(policy: int, file: seq<int8>, trace: seq<int32>)
    ensures var s := Run(Initial(), policy, Mapped(file), trace).0;
      s.freePageInt <= FRAMES && OneToOne(s.pageTable) &&
      forall page :: 0 <= page < PAGES ==> Fault(s, policy, Mapped(file), page) == TakeFreeFrame(s, Mapped(file), page)
  {
    ResidentInitial();
    RunKeepsResident(Initial(), policy, file, trace);
  }

  /** Once FRAMES pages are resident in a run over the mapped backing store, the next fault,
      under any policy, stops reading past the mapping instead of replacing a frame. */
  lemma FullMemoryFaultStops(policy: int, file: seq<int8>, trace: seq<int32>, address: int32)
    requires Run(Initial(), policy, Mapped(file), trace).0.freePageInt == FRAMES
    ensures var s := Run(Initial(), policy, Mapped(file), trace).0;
      var page := PageNumber(address);
      (s.pageTable[page] == UNMAPPED ==> Fault(s, policy, Mapped(file), page) == Aborted(ReadPastBackingStore(page))) &&
      (Lookup(s.tlb, ToUnsignedChar(page)) == -1 && s.pageTable[page] == UNMAPPED ==>
        Step(s, policy, Mapped(file), address) == (s, Stopped(ReadPastBackingStore(page))))
  {
    var s := Run(Initial(), policy, Mapped(file), trace).0;
    var page := PageNumber(address);
    ResidentInitial();
    RunKeepsResident(Initial(), policy, file, trace);
    if s.pageTable[page] == UNMAPPED {
      FaultKeepsResident(s, policy, file, page);
      if Lookup(s.tlb, ToUnsignedChar(page)) == -1 {
        StepOnMiss(s, policy, Mapped(file), address);
        assert Counted(s).pageTable == s.pageTable;
        FaultKeepsResident(Counted(s), policy, file, page);
      }
    }
  }
}
