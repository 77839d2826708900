/**
 * Page numbers and their conversions to and from addresses, with a page of
 * `PAGE_SIZE` bytes. A page number is a `usize` newtype that `step`s in place;
 * the conversions are pure arithmetic.
 */
module PageNum {

  const PAGE_SIZE: nat := 4096

  /** The alignments the kernel asks for: byte, 8-byte, 16-byte and page alignment. */
  predicate IsAlignment(align: nat) { align == 1 || align == 8 || align == 16 || align == PAGE_SIZE }

  lemma AlignDown8(addr: nat)
    ensures (addr - addr % 8) % 8 == 0 && addr < addr - addr % 8 + 8
  {
  }

  lemma AlignDown16(addr: nat)
    ensures (addr - addr % 16) % 16 == 0 && addr < addr - addr % 16 + 16
  {
  }

  lemma AlignDownPage(addr: nat)
    ensures (addr - addr % PAGE_SIZE) % PAGE_SIZE == 0 && addr < addr - addr % PAGE_SIZE + PAGE_SIZE
  {
  }

  /** The largest multiple of `align` not above `addr`. */
  function AlignDown(addr: nat, align: nat): (r: nat)
    requires IsAlignment(align)
    ensures r % align == 0 && r <= addr < r + align
  {
    if align == 8 then AlignDown8(addr); addr - addr % 8
    else if align == 16 then AlignDown16(addr); addr - addr % 16
    else if align == PAGE_SIZE then AlignDownPage(addr); addr - addr % PAGE_SIZE
    else addr
  }

  /** The smallest multiple of `align` not below `addr`. */
  function AlignUp(addr: nat, align: nat): (r: nat)
    requires IsAlignment(align)
    ensures r % align == 0 && addr <= r < addr + align
  {
    AlignDown(addr + align - 1, align)
  }

  /** The first address of page `n`. */
  function StartAddr(n: nat): nat { n * PAGE_SIZE }

  /** The first address past page `n` (the end is exclusive). */
  function EndAddr(n: nat): nat { (n + 1) * PAGE_SIZE }

  /** The page that holds `addr`. */
  function FromAddrFloor(addr: nat): (n: nat)
    ensures StartAddr(n) <= addr < EndAddr(n)
  {
    AlignDown(addr, PAGE_SIZE) / PAGE_SIZE
  }

  /** The first page that starts at or above `addr`. */
  function FromAddrCeil(addr: nat): (n: nat)
    ensures addr <= StartAddr(n) < addr + PAGE_SIZE
  {
    AlignUp(addr, PAGE_SIZE) / PAGE_SIZE
  }

  /** The address `offset` bytes past the start of page `n`. */
  function AtOffsetOfStart(n: nat, offset: nat): (a: nat)
    ensures offset < PAGE_SIZE ==> FromAddrFloor(a) == n
    ensures a - StartAddr(n) == offset
  {
    n * PAGE_SIZE + offset
  }

  /** The address `offset` bytes before the end of page `n`. */
  function AtOffsetOfEnd(n: nat, offset: nat): (a: nat)
    requires offset <= (n + 1) * PAGE_SIZE
    ensures 0 < offset <= PAGE_SIZE ==> FromAddrFloor(a) == n
    ensures EndAddr(n) - a == offset
  {
    (n + 1) * PAGE_SIZE - offset
  }

  /** Signed distance of `addr` from the start of page `n`. */
  function StartOffsetOfAddr(n: nat, addr: nat): (d: int)
    ensures d >= 0 ==> AtOffsetOfStart(n, d) == addr
    ensures 0 <= d < PAGE_SIZE <==> FromAddrFloor(addr) == n
  {
    addr - StartAddr(n)
  }

  /** Signed distance of `addr` from the end of page `n`. */
  function EndOffsetOfAddr(n: nat, addr: nat): (d: int)
    ensures d <= 0 && -d <= (n + 1) * PAGE_SIZE ==> AtOffsetOfEnd(n, -d) == addr
    ensures -(PAGE_SIZE as int) <= d < 0 <==> FromAddrFloor(addr) == n
  {
    addr - EndAddr(n)
  }

  // ---- machine integers ----

  /** There are 2^64 values of a 64-bit word. */
  const WORD_MODULUS: int := 0x1_0000_0000_0000_0000
  const ISIZE_MIN: int := -0x8000_0000_0000_0000
  const ISIZE_MAX: int := 0x7FFF_FFFF_FFFF_FFFF

  predicate IsUsize(x: int) { 0 <= x < WORD_MODULUS }

  predicate IsIsize(x: int) { ISIZE_MIN <= x <= ISIZE_MAX }

  /**
   * Truncation of an integer to 64-bit two's complement: `as i64` and `as
   * isize` on a 64-bit target, and the result of a wrapping 64-bit
   * subtraction.
   */
  function ToIsize(x: int): (r: int)
    ensures IsIsize(r)
    ensures (r - x) % WORD_MODULUS == 0
  {
    var low := x % WORD_MODULUS;
    if low <= ISIZE_MAX then low else low - WORD_MODULUS
  }

  /** Two 64-bit signed values that agree modulo 2^64 are equal. */
  lemma SameIsize(x: int, y: int)
    requires IsIsize(x) && IsIsize(y)
    requires (x - y) % WORD_MODULUS == 0
    ensures x == y
  {
    assert -WORD_MODULUS < x - y < WORD_MODULUS;
  }

  /** Multiples of 2^64 add up to a multiple of 2^64. */
  lemma WordMultipleSum(x: int, y: int)
    requires x % WORD_MODULUS == 0 && y % WORD_MODULUS == 0
    ensures (x + y) % WORD_MODULUS == 0
  {
    var p, q := x / WORD_MODULUS, y / WORD_MODULUS;
    assert x + y == WORD_MODULUS * (p + q);
  }

  /** Replacing both operands of a difference, and then the difference, by congruent values keeps it congruent. */
  lemma CongruentDiff(x: int, y: int, a: int, b: int, d: int)
    requires (a - x) % WORD_MODULUS == 0 && (b - y) % WORD_MODULUS == 0
    requires (d - (a - b)) % WORD_MODULUS == 0
    ensures (d - (x - y)) % WORD_MODULUS == 0
  {
    WordMultipleSum(a - x, y - b);
    WordMultipleSum(d - (a - b), (a - b) - (x - y));
  }

  /** Values that fit in an `isize` are kept as they are. */
  lemma ToIsizeKeeps(x: int)
    requires IsIsize(x)
    ensures ToIsize(x) == x
  {
    SameIsize(ToIsize(x), x);
  }

  /** A `usize` at or above 2^63 turns negative: it is read as itself minus 2^64. */
  lemma ToIsizeOfLargeUsize(x: int)
    requires IsUsize(x) && x > ISIZE_MAX
    ensures ToIsize(x) == x - WORD_MODULUS < 0
  {
    ToIsizeKeeps(x - WORD_MODULUS);
    assert ToIsize(x) == ToIsize(x - WORD_MODULUS);
  }

  /**
   * Number of pages from `other` up to `self`, as a signed value: both page
   * numbers are cast to `i64`, subtracted with 64-bit wrap-around and cast
   * to `isize`. The result is the true difference whenever that fits in an
   * `isize`.
   */
  function DiffPageCount(self: nat, other: nat): (d: int)
    requires IsUsize(self) && IsUsize(other)
    ensures IsIsize(d) && (d - (self - other)) % WORD_MODULUS == 0
    ensures IsIsize(self - other) ==> d == self - other
  {
    WrappingDiff(self, other);
    ToIsize(ToIsize(self) - ToIsize(other))
  }

  /** The wrapped difference of two casts agrees with the true difference modulo 2^64. */
  lemma WrappingDiff(x: int, y: int)
    ensures (ToIsize(ToIsize(x) - ToIsize(y)) - (x - y)) % WORD_MODULUS == 0
    ensures IsIsize(x - y) ==> ToIsize(ToIsize(x) - ToIsize(y)) == x - y
  {
    var a, b := ToIsize(x), ToIsize(y);
    var d := ToIsize(a - b);
    CongruentDiff(x, y, a, b, d);
    if IsIsize(x - y) {
      SameIsize(d, x - y);
    }
  }

  datatype AddressRange = AddressRange(start: nat, end: nat)

  /** The address range covered by page `n`. */
  function AddrRange(n: nat): (r: AddressRange)
    ensures r.end - r.start == PAGE_SIZE
    ensures forall a: nat :: r.start <= a < r.end <==> FromAddrFloor(a) == n
  {
    AddressRange(StartAddr(n), EndAddr(n))
  }

  /** A page number held in a variable and stepped in place. */
  class PageNumber {
    var value: nat

    constructor (n: nat)
      ensures value == n
    {
      value := n;
    }

    method StepBy(offset: nat)
      modifies this
      ensures value == old(value) + offset
    {
      value := value + offset;
    }

    method Step()
      modifies this
      ensures value == old(value) + 1
    {
      StepBy(1);
    }

    /** The `usize` subtraction underflows (and panics) below page 0. */
    method StepBackBy(offset: nat)
      requires offset <= value
      modifies this
      ensures value == old(value) - offset
    {
      value := value - offset;
    }

    method StepBack()
      requires 1 <= value
      modifies this
      ensures value == old(value) - 1
    {
      StepBackBy(1);
    }
  }

  /** Stepping forward by `k` and back by `k` returns to the same page. */
  method StepRoundTrip(p: PageNumber, k: nat)
    requires IsUsize(p.value + k)
    modifies p
    ensures p.value == old(p.value)
    ensures DiffPageCount(p.value, old(p.value)) == 0
  {
    p.StepBy(k);
    if k <= ISIZE_MAX {
      assert DiffPageCount(p.value, old(p.value)) == k;
    }
    p.StepBackBy(k);
  }

  // ---- lemmas ----

  /** A page's end is the next page's start: the two differ by exactly one page. */
  lemma EndIsNextStart(n: nat)
    ensures EndAddr(n) == StartAddr(n + 1) == StartAddr(n) + PAGE_SIZE
  {
  }

  /** Converting a page's start address back gives the page, rounding either way. */
  lemma {:induction false} StartAddrRoundTrip(n: nat)
    ensures FromAddrFloor(StartAddr(n)) == n
    ensures FromAddrCeil(StartAddr(n)) == n
  {
    var a := StartAddr(n);
    var f := FromAddrFloor(a);
    var c := FromAddrCeil(a);
    PageOrder(f, n);
    PageOrder(n, f);
    PageOrder(c, n);
    PageOrder(n, c);
  }

  /** Page starts are ordered like the page numbers. */
  lemma PageOrder(m: nat, n: nat)
    ensures m < n ==> StartAddr(m) + PAGE_SIZE <= StartAddr(n)
  {
  }

  /** The ceiling page is the floor page, or the one after it when `addr` is not page-aligned. */
  lemma {:induction false} FloorCeilBounds(addr: nat)
    ensures FromAddrFloor(addr) <= FromAddrCeil(addr) <= FromAddrFloor(addr) + 1
    ensures FromAddrCeil(addr) == FromAddrFloor(addr) <==> addr % PAGE_SIZE == 0
  {
    var f := FromAddrFloor(addr);
    var c := FromAddrCeil(addr);
    PageOrder(c, f);
    PageOrder(f + 1, c);
    if addr % PAGE_SIZE == 0 {
      var q := addr / PAGE_SIZE;
      assert StartAddr(q) == addr;
      PageOrder(q, c);
      PageOrder(c, q);
      PageOrder(q, f);
      PageOrder(f, q);
    } else {
      assert StartAddr(f) != addr;
    }
  }

  /**
   * `diff_page_count` is antisymmetric modulo 2^64, and exactly so for page
   * numbers below 2^63; it undoes a step that fits in an `isize`.
   */
  lemma {:induction false} DiffPageCountAntisymmetric(a: nat, b: nat)
    requires IsUsize(a) && IsUsize(b)
    ensures (DiffPageCount(a, b) + DiffPageCount(b, a)) % WORD_MODULUS == 0
    ensures a <= ISIZE_MAX && b <= ISIZE_MAX ==> DiffPageCount(a, b) == -DiffPageCount(b, a)
    ensures IsUsize(a + b) && a <= ISIZE_MAX ==> DiffPageCount(a + b, b) == a
  {
    var d, e := DiffPageCount(a, b), DiffPageCount(b, a);
    WordMultipleSum(d - (a - b), e - (b - a));
  }

  /** At the wrap point the cast shows: page 2^63 and page 0 are -2^63 apart both ways. */
  lemma DiffPageCountAtWrap()
    ensures DiffPageCount(ISIZE_MAX + 1, 0) == DiffPageCount(0, ISIZE_MAX + 1) == ISIZE_MIN
  {
    ToIsizeOfLargeUsize(ISIZE_MAX + 1);
    ToIsizeKeeps(ISIZE_MIN);
  }

  /** Offset zero lands on the page's start and end addresses. */
  lemma AtOffsetZero(n: nat)
    ensures AtOffsetOfStart(n, 0) == StartAddr(n)
    ensures AtOffsetOfEnd(n, 0) == EndAddr(n)
  {
  }
}
