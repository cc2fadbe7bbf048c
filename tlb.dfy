/** The translation lookaside buffer: 16 slots of (logical page, physical frame) bytes,
    searched linearly and refilled in FIFO order through a count of insertions. */
module TranslationCache {
  import opened CTypes
  import opened Params

  /** `struct tlbentry`: both fields are `unsigned char`. */
  datatype TlbEntry = TlbEntry(logical: byte, physical: byte)

  /** The zero-filled entry every slot of the global TLB starts with. */
  const ZERO_ENTRY := TlbEntry(0, 0)

  /** Index of the lowest slot at or after `from` whose logical field is `l`, or -1. */
  function FirstMatch(slots: seq<TlbEntry>, l: byte, from: nat := 0): (k: int)
    requires from <= |slots|
    ensures -1 <= k < |slots|
    ensures k != -1 ==> from <= k && slots[k].logical == l
    decreases |slots| - from
  {
    if from == |slots| then -1
    else if slots[from].logical == l then from
    else FirstMatch(slots, l, from + 1)
  }

  /** The scan misses only when no slot from `from` on matches, and every slot it passes over
      does not match. */
  lemma {:induction false} FirstMatchMeaning(slots: seq<TlbEntry>, l: byte, from: nat)
    requires from <= |slots|
    ensures FirstMatch(slots, l, from) == -1 <==> forall i :: from <= i < |slots| ==> slots[i].logical != l
    ensures forall i :: from <= i < FirstMatch(slots, l, from) ==> slots[i].logical != l
    decreases |slots| - from
  {
    if from < |slots| && slots[from].logical != l {
      FirstMatchMeaning(slots, l, from + 1);
    }
  }

  /** What `search_tlb` answers: the frame of the first matching slot, or -1. */
  function Lookup(slots: seq<TlbEntry>, l: byte): (r: int)
    ensures -1 <= r < 0x100
  {
    var k := FirstMatch(slots, l);
    if k == -1 then -1 else slots[k].physical
  }

  /** The slots after `add_to_tlb` with `tlbindex == inserts`. */
  function Insert(slots: seq<TlbEntry>, inserts: nat, l: byte, p: byte): seq<TlbEntry>
    requires |slots| == TLB_SIZE
  {
    slots[inserts % TLB_SIZE := TlbEntry(l, p)]
  }

  /** A lookup misses exactly when no slot names the page, and a hit is the frame of the
      lowest-index slot naming it. */
  lemma LookupMeaning(slots: seq<TlbEntry>, l: byte)
    ensures Lookup(slots, l) == -1 <==> forall i :: 0 <= i < |slots| ==> slots[i].logical != l
    ensures Lookup(slots, l) != -1 ==>
      exists k :: 0 <= k < |slots| && slots[k].logical == l && Lookup(slots, l) == slots[k].physical &&
        forall i :: 0 <= i < k ==> slots[i].logical != l
  {
    FirstMatchMeaning(slots, l, 0);
    var k := FirstMatch(slots, l);
    if k != -1 {
      assert slots[k].logical == l && Lookup(slots, l) == slots[k].physical;
    }
  }

  /** An insertion touches one slot, the one the insertion count selects modulo 16. */
  lemma InsertTouchesOneSlot(slots: seq<TlbEntry>, inserts: nat, l: byte, p: byte)
    requires |slots| == TLB_SIZE
    ensures |Insert(slots, inserts, l, p)| == TLB_SIZE
    ensures Insert(slots, inserts, l, p)[inserts % TLB_SIZE] == TlbEntry(l, p)
    ensures forall i :: 0 <= i < TLB_SIZE && i != inserts % TLB_SIZE ==> Insert(slots, inserts, l, p)[i] == slots[i]
  {
  }

  /** After inserting (l, p), a search for l finds p, unless a slot below the one written
      already names l, in which case the search still returns that older slot's frame. */
  lemma SearchAfterInsert(slots: seq<TlbEntry>, inserts: nat, l: byte, p: byte)
    requires |slots| == TLB_SIZE
    ensures Lookup(Insert(slots, inserts, l, p), l) ==
      if 0 <= FirstMatch(slots, l) < inserts % TLB_SIZE then Lookup(slots, l) else p
  {
    var slot := inserts % TLB_SIZE;
    var after := Insert(slots, inserts, l, p);
    var k := FirstMatch(slots, l);
    var k' := FirstMatch(after, l);
    FirstMatchMeaning(slots, l, 0);
    FirstMatchMeaning(after, l, 0);
    assert after[slot].logical == l;
    assert k' != -1 && k' <= slot;
    if 0 <= k < slot {
      assert after[k] == slots[k];
      assert k' == k;
    } else {
      assert forall i :: 0 <= i < slot ==> after[i].logical != l by {
        forall i | 0 <= i < slot ensures after[i].logical != l {
          assert after[i] == slots[i];
        }
      }
      assert k' == slot;
    }
  }

  /** The TLB as the program keeps it: the global array and its insertion count `tlbindex`. */
  class Tlb {
    const slots: array<TlbEntry>
    var inserts: nat

    ghost predicate Valid()
    {
      slots.Length == TLB_SIZE
    }

    /** The global TLB is zero-initialised, so every slot starts out naming page 0 and frame 0. */
    constructor ()
      ensures Valid() && fresh(slots)
      ensures slots[..] == seq(TLB_SIZE, _ => ZERO_ENTRY) && inserts == 0
    {
      slots := new TlbEntry[TLB_SIZE](_ => ZERO_ENTRY);
      inserts := 0;
    }

    /** `search_tlb`: the frame of the lowest-index slot naming the page, or -1. */
    method Search(l: byte) returns (r: int)
      requires Valid()
      ensures r == Lookup(slots[..], l)
      ensures r == -1 <==> forall i :: 0 <= i < TLB_SIZE ==> slots[i].logical != l
      ensures r != -1 ==> exists k :: 0 <= k < TLB_SIZE && slots[k].logical == l && r == slots[k].physical
    {
      LookupMeaning(slots[..], l);
      var i := 0;
      while i < TLB_SIZE
        invariant 0 <= i <= TLB_SIZE
        invariant FirstMatch(slots[..], l) == FirstMatch(slots[..], l, i)
      {
        if slots[i].logical == l {
          return slots[i].physical;
        }
        i := i + 1;
      }
      return -1;
    }

    /** `add_to_tlb`: overwrite the slot `tlbindex % TLB_SIZE` and count the insertion. */
    method Add(l: byte, p: byte)
      requires Valid()
      modifies this, slots
      ensures Valid()
      ensures slots[..] == Insert(old(slots[..]), old(inserts), l, p)
      ensures inserts == old(inserts) + 1
    {
      var index := inserts % TLB_SIZE;
      slots[index] := TlbEntry(l, p);
      inserts := inserts + 1;
    }
  }
}
