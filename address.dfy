/** Splitting a logical address into page number and offset, and rebuilding a physical
    address from a frame number and an offset, with C's bitwise operators. */
module Address {
  import opened CTypes
  import opened Params

  function Pow2(n: nat): (r: nat)
    ensures r >= 1
  {
    if n == 0 then 1 else 2 * Pow2(n - 1)
  }

  /** `x & y` on non-negative values, one bit at a time from the least significant. */
  function BitAnd(x: nat, y: nat): nat
    decreases x
  {
    if x == 0 || y == 0 then 0 else 2 * BitAnd(x / 2, y / 2) + (if x % 2 == 1 && y % 2 == 1 then 1 else 0)
  }

  /** `x | y` on non-negative values, one bit at a time from the least significant. */
  function BitOr(x: nat, y: nat): nat
    decreases x + y
  {
    if x == 0 then y
    else if y == 0 then x
    else 2 * BitOr(x / 2, y / 2) + (if x % 2 == 1 || y % 2 == 1 then 1 else 0)
  }

  /** The 32-bit two's complement pattern of a C `int`, read as an unsigned number. */
  function Bits(a: int32): (r: nat)
    ensures r < 0x1_0000_0000
  {
    if a >= 0 then a else a + 0x1_0000_0000
  }

  /** `a >> OFFSET_BITS` on a C `int`, as the compiler implements it: an arithmetic shift, which
      rounds towards minus infinity, as Dafny's `/` by a positive divisor does. */
  function ShiftRightOffsetBits(a: int32): (r: int32)
  {
    a / PAGE_SIZE
  }

  lemma MultiplyAtLeast(d: nat, n: nat)
    requires d >= 1 && n >= 1
    ensures d * n >= d && d * n >= n
  {
    assert d * n == d * (n - 1) + d;
    assert d * (n - 1) >= 0;
    assert d * n == (d - 1) * n + n;
    assert (d - 1) * n >= 0;
  }

  /** `a & mask` where the mask is a non-negative `int`. */
  function And(a: int32, mask: nat): nat
    requires mask < 0x8000_0000
  {
    BitAnd(Bits(a), mask)
  }

  /** The offset: the logical address masked with OFFSET_MASK. */
  function Offset(a: int32): (r: nat)
    ensures r < PAGE_SIZE
  {
    OffsetIsLowBits(a);
    And(a, OFFSET_MASK)
  }

  /** The page number: the logical address shifted right by OFFSET_BITS, then masked with
      OFFSET_MASK. */
  function PageNumber(a: int32): (r: nat)
    ensures r < PAGES
  {
    PageIsMiddleBits(a);
    And(ShiftRightOffsetBits(a), OFFSET_MASK)
  }

  /** The physical address: the frame number shifted left by OFFSET_BITS, OR-ed with the
      offset, for a frame number whose shifted value still fits in a non-negative `int`. */
  function PhysicalAddress(frame: nat, offset: nat): nat
    requires frame < 0x20_0000 && offset < PAGE_SIZE
  {
    BitOr(frame * PAGE_SIZE, offset)
  }

  /** Masking with 2^k - 1 keeps exactly the k low bits. */
  lemma {:induction false} MaskIsRemainder(x: nat, k: nat)
    ensures BitAnd(x, Pow2(k) - 1) == x % Pow2(k)
  {
    if k == 0 {
    } else if x == 0 {
    } else {
      var m := Pow2(k - 1);
      assert Pow2(k) - 1 == 2 * (m - 1) + 1;
      assert (Pow2(k) - 1) / 2 == m - 1 && (Pow2(k) - 1) % 2 == 1;
      MaskIsRemainder(x / 2, k - 1);
      assert BitAnd(x, Pow2(k) - 1) == 2 * ((x / 2) % m) + x % 2;
      RemainderOfHalf(x, m);
    }
  }

  lemma RemainderOfHalf(x: nat, m: nat)
    requires m >= 1
    ensures 2 * ((x / 2) % m) + x % 2 == x % (2 * m)
  {
    var q := (x / 2) / m;
    var r := (x / 2) % m;
    assert x / 2 == q * m + r;
    assert x == (2 * m) * q + (2 * r + x % 2);
    assert 0 <= 2 * r + x % 2 < 2 * m;
    ModOfDecomposition(x, 2 * m, q, 2 * r + x % 2);
  }

  lemma ModOfDecomposition(x: int, d: nat, q: int, r: int)
    requires d >= 1 && x == d * q + r && 0 <= r < d
    ensures x % d == r && x / d == q
  {
    var q', r' := x / d, x % d;
    assert d * (q - q') == r' - r;
    if q - q' >= 1 {
      MultiplyAtLeast(d, q - q');
    } else if q' - q >= 1 {
      MultiplyAtLeast(d, q' - q);
    }
  }

  /** OR-ing a value below 2^k into a multiple of 2^k is addition: the bits do not overlap. */
  lemma {:induction false} OrIntoZeroBits(f: nat, k: nat, o: nat)
    requires o < Pow2(k)
    ensures BitOr(f * Pow2(k), o) == f * Pow2(k) + o
  {
    if k == 0 {
      assert o == 0;
      assert BitOr(f * Pow2(k), 0) == f * Pow2(k);
    } else if f == 0 || o == 0 {
    } else {
      var m := Pow2(k - 1);
      var x := f * Pow2(k);
      assert x == 2 * (f * m);
      assert x / 2 == f * m && x % 2 == 0;
      assert o / 2 < m;
      OrIntoZeroBits(f, k - 1, o / 2);
      assert BitOr(x, o) == 2 * (f * m + o / 2) + o % 2;
    }
  }

  lemma OffsetIsLowBits(a: int32)
    ensures And(a, OFFSET_MASK) == a % PAGE_SIZE
  {
    assert Pow2(10) == 1024;
    MaskIsRemainder(Bits(a), 10);
    var b := Bits(a);
    assert b == a || b == a + 0x1_0000_0000;
    assert 0x1_0000_0000 == 1024 * 0x40_0000;
    if b != a {
      ModOfDecomposition(b, 1024, a / 1024 + 0x40_0000, a % 1024);
    }
  }

  lemma PageIsMiddleBits(a: int32)
    ensures And(ShiftRightOffsetBits(a), OFFSET_MASK) == (a / PAGE_SIZE) % PAGES
  {
    assert Pow2(10) == 1024;
    OffsetIsLowBits(ShiftRightOffsetBits(a));
  }

  /** The split as arithmetic: the offset is the remainder modulo the page size and the page
      number is the quotient reduced modulo the number of pages, for negative addresses too
      (a negative `int` is split through its two's complement pattern). */
  lemma SplitMeaning(a: int32)
    ensures Offset(a) == a % PAGE_SIZE
    ensures PageNumber(a) == (a / PAGE_SIZE) % PAGES
  {
    OffsetIsLowBits(a);
    PageIsMiddleBits(a);
  }

  /** An address below 2^20 is exactly page and offset side by side. */
  lemma SplitRecombines(a: int32)
    requires 0 <= a < PAGES * PAGE_SIZE
    ensures a == PageNumber(a) * PAGE_SIZE + Offset(a)
    ensures PhysicalAddress(PageNumber(a), Offset(a)) == a
  {
    SplitMeaning(a);
    RecombineFields(PageNumber(a), Offset(a));
  }

  /** The rebuilt physical address carries the offset in its 10 low bits and the frame above. */
  lemma RecombineFields(frame: nat, offset: nat)
    requires frame < 0x20_0000 && offset < PAGE_SIZE
    ensures PhysicalAddress(frame, offset) == frame * PAGE_SIZE + offset
    ensures PhysicalAddress(frame, offset) % PAGE_SIZE == offset
    ensures PhysicalAddress(frame, offset) / PAGE_SIZE == frame
  {
    assert Pow2(10) == 1024;
    OrIntoZeroBits(frame, OFFSET_BITS, offset);
    ModOfDecomposition(frame * 1024 + offset, 1024, frame, offset);
  }
}
