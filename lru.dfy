/** The recency list the LRU policy consults: a singly linked list of (logical, physical)
    records with a size count, here a sequence of records in list order, head first. */
module Recency {
  import opened Params

  /** `struct lru_entry` without its `next` link. */
  datatype LruEntry = LruEntry(logical: int, physical: int)

  /** The list after `add_to_lru`: the record goes at the tail unless the list already holds FRAMES. */
  function Appended(entries: seq<LruEntry>, l: int, p: int): seq<LruEntry>
  {
    if |entries| >= FRAMES then entries else entries + [LruEntry(l, p)]
  }

  /** Index of the first record whose logical field is `l`, or -1. */
  function IndexOf(entries: seq<LruEntry>, l: int, from: nat := 0): (k: int)
    requires from <= |entries|
    ensures -1 <= k < |entries|
    ensures k != -1 ==> from <= k && entries[k].logical == l
    decreases |entries| - from
  {
    if from == |entries| then -1
    else if entries[from].logical == l then from
    else IndexOf(entries, l, from + 1)
  }

  /** The search fails only when no record from `from` on is for `l`, and every record it
      passes over is for another logical value. */
  lemma {:induction false} IndexOfMeaning(entries: seq<LruEntry>, l: int, from: nat)
    requires from <= |entries|
    ensures IndexOf(entries, l, from) == -1 <==> forall i :: from <= i < |entries| ==> entries[i].logical != l
    ensures forall i :: from <= i < IndexOf(entries, l, from) ==> entries[i].logical != l
    decreases |entries| - from
  {
    if from < |entries| && entries[from].logical != l {
      IndexOfMeaning(entries, l, from + 1);
    }
  }

  /** The list after `remove_from_lru(l)`: the first record for `l` unlinked, if there is one. */
  function Removed(entries: seq<LruEntry>, l: int): seq<LruEntry>
  {
    var k := IndexOf(entries, l);
    if k == -1 then entries else entries[..k] + entries[k + 1..]
  }

  /** What `remove_from_lru(l)` returns: the frame of the record it unlinks, or -1. */
  function RemovedFrame(entries: seq<LruEntry>, l: int): int
  {
    var k := IndexOf(entries, l);
    if k == -1 then -1 else entries[k].physical
  }

  /** Appending keeps the earlier records in order and never takes the list past FRAMES. */
  lemma AppendMeaning(entries: seq<LruEntry>, l: int, p: int)
    requires |entries| <= FRAMES
    ensures |Appended(entries, l, p)| <= FRAMES
    ensures |entries| < FRAMES ==>
      (|Appended(entries, l, p)| == |entries| + 1 &&
       Appended(entries, l, p)[..|entries|] == entries && Appended(entries, l, p)[|entries|] == LruEntry(l, p))
    ensures |entries| == FRAMES ==> Appended(entries, l, p) == entries
  {
  }

  /** Removal unlinks exactly the first record for `l`: one record fewer, the others in their
      old order, and the unlinked record's frame returned; with no record for `l` (or an
      empty list) nothing changes and the answer is -1. */
  lemma RemoveMeaning(entries: seq<LruEntry>, l: int)
    ensures RemovedFrame(entries, l) == -1 && Removed(entries, l) == entries <==>
      forall i :: 0 <= i < |entries| ==> entries[i].logical != l
    ensures (exists i :: 0 <= i < |entries| && entries[i].logical == l) ==>
      exists k :: 0 <= k < |entries| && entries[k].logical == l &&
        (forall i :: 0 <= i < k ==> entries[i].logical != l) &&
        RemovedFrame(entries, l) == entries[k].physical &&
        Removed(entries, l) == entries[..k] + entries[k + 1..] &&
        |Removed(entries, l)| == |entries| - 1
  {
    IndexOfMeaning(entries, l, 0);
    var k := IndexOf(entries, l);
    if k != -1 {
      assert entries[k].logical == l;
      assert |Removed(entries, l)| == |entries| - 1;
    }
  }

  /** Removal and appending bring in no record other than the one appended. */
  lemma RemovedOnlyDrops(entries: seq<LruEntry>, l: int)
    ensures |Removed(entries, l)| <= |entries|
    ensures forall x :: x in Removed(entries, l) ==> x in entries
  {
    var k := IndexOf(entries, l);
    if k != -1 {
      forall x | x in Removed(entries, l) ensures x in entries {
        if x in entries[..k] {
          var j :| 0 <= j < k && entries[..k][j] == x;
          assert entries[j] == x;
        } else {
          assert x in entries[k + 1..];
          var j :| 0 <= j < |entries| - k - 1 && entries[k + 1..][j] == x;
          assert entries[k + 1 + j] == x;
        }
      }
    }
  }

  lemma AppendedOnlyAdds(entries: seq<LruEntry>, l: int, p: int)
    ensures |Appended(entries, l, p)| <= if |entries| < FRAMES then |entries| + 1 else |entries|
    ensures forall x :: x in Appended(entries, l, p) ==> x in entries || x == LruEntry(l, p)
  {
  }

  /** Whether `remove_from_lru(l)` unlinks the head of a list that stays non-empty, leaving
      the freed record as the head the next `add_to_lru` walks from. */
  predicate FreesHead(entries: seq<LruEntry>, l: int)
  {
    IndexOf(entries, l) == 0 && |entries| > 1
  }

  /** The list after the main loop's `remove_from_lru(l)` and `add_to_lru(l, p)`. */
  function Requeued(entries: seq<LruEntry>, l: int, p: int): seq<LruEntry>
  {
    Appended(Removed(entries, l), l, p)
  }

  /** Moving a record to the tail keeps the list within FRAMES records, brings in no record
      but the new one, and leaves that record last. */
  lemma RequeueMeaning(entries: seq<LruEntry>, l: int, p: int)
    requires |entries| <= FRAMES
    ensures 0 < |Requeued(entries, l, p)| <= FRAMES
    ensures forall x :: x in Requeued(entries, l, p) ==> x in entries || x == LruEntry(l, p)
    ensures (IndexOf(entries, l) != -1 || |entries| < FRAMES) ==>
      Requeued(entries, l, p)[|Requeued(entries, l, p)| - 1] == LruEntry(l, p)
  {
    RemovedOnlyDrops(entries, l);
    RemoveMeaning(entries, l);
    AppendedOnlyAdds(Removed(entries, l), l, p);
    AppendMeaning(Removed(entries, l), l, p);
  }

  /** Removing a record just appended for a fresh logical value undoes the append and
      answers the appended frame. */
  lemma RemoveUndoesAppend(entries: seq<LruEntry>, l: int, p: int)
    requires |entries| < FRAMES
    requires forall i :: 0 <= i < |entries| ==> entries[i].logical != l
    ensures Removed(Appended(entries, l, p), l) == entries
    ensures RemovedFrame(Appended(entries, l, p), l) == p
  {
    var after := Appended(entries, l, p);
    IndexOfMeaning(after, l, 0);
    assert after[|entries|].logical == l;
    assert IndexOf(after, l) == |entries|;
    assert after[..|entries|] == entries;
  }

  /** `lru_list`. `headFreed` records that the record the head pointer designates has been freed:
      `remove_from_lru` unlinks the head by writing through `prev`, which is the head itself
      there, so the freed node stays the list's head. Reaching the list through it while the
      size is positive is undefined behaviour, which is what the preconditions exclude. */
  class LruList {
    var entries: seq<LruEntry>
    var size: int
    var headFreed: bool

    ghost predicate Valid()
      reads this
    {
      size == |entries| && size <= FRAMES
    }

    /** The list can be walked from its head: the head is live, or the list is empty. */
    predicate Walkable()
      reads this
    {
      !headFreed || size == 0
    }

    constructor ()
      ensures Valid() && entries == [] && !headFreed
    {
      entries, size, headFreed := [], 0, false;
    }

    /** `add_to_lru`. */
    method Add(l: int, p: int)
      requires Valid()
      requires size >= FRAMES || Walkable()
      modifies this
      ensures Valid()
      ensures entries == Appended(old(entries), l, p)
      ensures headFreed == (old(headFreed) && old(size) >= FRAMES)
    {
      if size >= FRAMES {
        return;
      }
      if size == 0 {
        // a new record becomes the head
        entries, size, headFreed := [LruEntry(l, p)], 1, false;
        return;
      }
      entries := entries + [LruEntry(l, p)];
      size := size + 1;
    }

    /** `remove_from_lru`: walk from the head to the first record for `l` and unlink it. */
    method Remove(l: int) returns (physical: int)
      requires Valid() && Walkable()
      modifies this
      ensures Valid()
      ensures physical == RemovedFrame(old(entries), l)
      ensures entries == Removed(old(entries), l)
      ensures headFreed == (old(headFreed) || IndexOf(old(entries), l) == 0)
    {
      if size == 0 {
        return -1;
      }
      var i := 0;
      while i < size
        invariant 0 <= i <= size
        invariant IndexOf(entries, l) == IndexOf(entries, l, i)
        invariant entries == old(entries) && headFreed == old(headFreed)
      {
        if entries[i].logical == l {
          assert IndexOf(entries, l, i) == i;
          physical := entries[i].physical;
          if i == 0 {
            headFreed := true;
          }
          entries := entries[..i] + entries[i + 1..];
          size := size - 1;
          return;
        }
        assert IndexOf(entries, l, i) == IndexOf(entries, l, i + 1);
        i := i + 1;
      }
      assert IndexOf(entries, l, i) == -1;
      return -1;
    }

    /** The main loop's `remove_from_lru(l)` followed by `add_to_lru(l, p)`. The answer is true
        when the removal freed the head of a list that stays non-empty, so that the add would
        walk from a freed record; the add is then not made. */
    method Requeue(l: int, p: int) returns (freedHead: bool)
      requires Valid() && Walkable()
      modifies this
      ensures Valid()
      ensures freedHead == FreesHead(old(entries), l)
      ensures freedHead ==> entries == Removed(old(entries), l)
      ensures !freedHead ==> entries == Requeued(old(entries), l, p) && !headFreed
    {
      RemoveMeaning(entries, l);
      var _ := Remove(l);
      if !(size >= FRAMES || Walkable()) {
        return true;
      }
      Add(l, p);
      return false;
    }
  }
}
