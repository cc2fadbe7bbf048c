/** The page table: one `int` per logical page, holding its frame, or -1 while it is not resident. */
module PageTable {
  import opened Params

  const UNMAPPED: int := -1

  /** The lowest page at or after `from` whose entry is `frame`, or -1. */
  function OwnerOf(table: seq<int>, frame: int, from: nat := 0): (r: int)
    requires from <= |table|
    ensures -1 <= r < |table|
    ensures r != -1 ==> from <= r && table[r] == frame
    decreases |table| - from
  {
    if from == |table| then -1
    else if table[from] == frame then from
    else OwnerOf(table, frame, from + 1)
  }

  /** The scan fails only when no page from `from` on holds the frame, and every page it
      passes over holds another frame. */
  lemma {:induction false} OwnerOfMeaning(table: seq<int>, frame: int, from: nat)
    requires from <= |table|
    ensures OwnerOf(table, frame, from) == -1 <==> forall i :: from <= i < |table| ==> table[i] != frame
    ensures forall i :: from <= i < OwnerOf(table, frame, from) ==> table[i] != frame
    decreases |table| - from
  {
    if from < |table| && table[from] != frame {
      OwnerOfMeaning(table, frame, from + 1);
    }
  }

  /** Some page's entry is `frame`. */
  ghost predicate Owned(table: seq<int>, frame: int)
  {
    exists i :: 0 <= i < |table| && table[i] == frame
  }

  /** The reverse lookup fails exactly when no page holds the frame. */
  lemma OwnerFoundIffOwned(table: seq<int>, frame: int)
    ensures OwnerOf(table, frame) != -1 <==> Owned(table, frame)
  {
    OwnerOfMeaning(table, frame, 0);
    if Owned(table, frame) {
      var i :| 0 <= i < |table| && table[i] == frame;
      assert OwnerOf(table, frame) != -1;
    }
  }

  /** `get_logical_address`: scan the table from page 0 for the first entry equal to the frame. */
  method GetLogicalAddress(table: array<int>, frame: int) returns (r: int)
    requires table.Length == PAGES
    ensures r == OwnerOf(table[..], frame)
    ensures r == -1 <==> forall i :: 0 <= i < PAGES ==> table[i] != frame
    ensures r != -1 ==> 0 <= r < PAGES && table[r] == frame && forall i :: 0 <= i < r ==> table[i] != frame
  {
    OwnerOfMeaning(table[..], frame, 0);
    var i := 0;
    while i < PAGES
      invariant 0 <= i <= PAGES
      invariant OwnerOf(table[..], frame) == OwnerOf(table[..], frame, i)
    {
      if table[i] == frame {
        return i;
      }
      i := i + 1;
    }
    return -1;
  }
}
