/** Machine words, page size and mask-based alignment. */
module Addr {
  import opened Bits
  import opened FreeRuns

  const PAGE_SIZE := 4096
  /** One more than the largest 64-bit value. */
  const WORD_LIMIT := 0x1_0000_0000_0000_0000

  type Word = x: int | 0 <= x < WORD_LIMIT

  lemma WordWidth() returns (n: nat)
    ensures n == 64 && Pow2(n) == WORD_LIMIT
  {
    Pow2Values();
    n := 64;
  }

  predicate IsPowerOfTwo(x: nat)
  {
    x == 1 || (x > 1 && x % 2 == 0 && IsPowerOfTwo(x / 2))
  }

  lemma {:induction false} PowerOfTwoExponent(x: nat) returns (k: nat)
    requires IsPowerOfTwo(x)
    ensures x == Pow2(k)
    decreases x
  {
    if x == 1 {
      k := 0;
    } else {
      k := PowerOfTwoExponent(x / 2);
      k := k + 1;
    }
  }

  /** `addr & (align - 1) == 0`. */
  predicate IsAligned(addr: Word, align: Word)
    requires align > 0
  {
    And(addr, align - 1) == 0
  }

  /** `(addr + align - 1) & !(align - 1)` on a word that does not overflow. */
  function MaskUp(addr: Word, align: Word): nat
    requires align > 0 && addr + align - 1 < WORD_LIMIT
  {
    And(addr + align - 1, WORD_LIMIT - 1 - (align - 1))
  }

  lemma IsAlignedIsDivisible(addr: Word, align: Word)
    requires IsPowerOfTwo(align)
    ensures IsAligned(addr, align) <==> addr % align == 0
  {
    var k := PowerOfTwoExponent(align);
    AndLowMask(addr, k);
  }

  /** The recursive test recognises exactly the powers of two. */
  lemma {:induction false} PowerOfTwoIff(x: nat, k: nat)
    ensures IsPowerOfTwo(Pow2(k))
    ensures IsPowerOfTwo(x) ==> exists n: nat :: x == Pow2(n)
    decreases k
  {
    if k > 0 {
      PowerOfTwoIff(0, k - 1);
      assert Pow2(k) / 2 == Pow2(k - 1);
    }
    if IsPowerOfTwo(x) { var n := PowerOfTwoExponent(x); }
  }

  lemma PageIsPowerOfTwo()
    ensures IsPowerOfTwo(PAGE_SIZE)
  {
    assert IsPowerOfTwo(64);
  }

  lemma Pow2Grows(a: nat, b: nat)
    requires a <= b
    ensures Pow2(a) <= Pow2(b)
  {
    if a < b { Pow2Monotone(a, b); }
  }

  lemma ExponentBelowWidth(k: nat, n: nat)
    requires Pow2(k) < Pow2(n)
    ensures k < n
  {
    if k >= n { Pow2Grows(n, k); }
  }

  /** The mask expression computes the smallest aligned address that is not below `addr`. */
  lemma MaskUpIsAlignUp(addr: Word, align: Word)
    requires IsPowerOfTwo(align) && addr + align - 1 < WORD_LIMIT
    ensures MaskUp(addr, align) == AlignUp(addr, align)
  {
    var k := PowerOfTwoExponent(align);
    var n := WordWidth();
    ExponentBelowWidth(k, n);
    MaskRoundsDown(addr + align - 1, align, k, n);
    RoundUpIsAlignUp(addr, align);
  }

  lemma MaskRoundsDown(y: nat, align: nat, k: nat, n: nat)
    requires k <= n && align == Pow2(k) && y < Pow2(n)
    ensures align <= Pow2(n) && And(y, Pow2(n) - 1 - (align - 1)) == y - y % align
  {
    AndAlignDown(y, k, n);
  }

  lemma RoundUpIsAlignUp(x: int, d: int)
    requires d > 0
    ensures (x + d - 1) - (x + d - 1) % d == AlignUp(x, d)
  {
    var y := x + d - 1;
    var low := y - y % d;
    RoundDown(y, d);
    MultipleOf(y / d, d);
    AlignUpIsLeast(x, d, low);
    if AlignUp(x, d) < low { GapOfMultiples(AlignUp(x, d), low, d); }
  }

  /** A power of two that fits a word divides the word limit. */
  lemma WordLimitIsAligned(align: Word)
    requires IsPowerOfTwo(align)
    ensures WORD_LIMIT % align == 0
  {
    var k := PowerOfTwoExponent(align);
    var n := WordWidth();
    ExponentBelowWidth(k, n);
    Pow2Add(n - k, k);
    MultipleOf(Pow2(n - k), align);
  }

  /** The overflow guard rejects only addresses with no aligned address above them in a word. */
  lemma OverflowMeansNoAlignedAddress(addr: Word, align: Word)
    requires IsPowerOfTwo(align) && addr + align - 1 >= WORD_LIMIT
    ensures AlignUp(addr, align) >= WORD_LIMIT
  {
    WordLimitIsAligned(align);
    var r := AlignUp(addr, align);
    if r < WORD_LIMIT {
      GapOfMultiples(r, WORD_LIMIT, align);
    }
  }

  /** The mask expression on wrapping words. */
  function WrapUp(addr: Word, align: Word): nat
    requires align > 0
  {
    And((addr + align - 1) % WORD_LIMIT, WORD_LIMIT - 1 - (align - 1))
  }

  lemma MaskOfSmall(x: nat, align: Word)
    requires IsPowerOfTwo(align) && x < align
    ensures And(x, WORD_LIMIT - 1 - (align - 1)) == 0
  {
    hide And, IsPowerOfTwo;
    var k := PowerOfTwoExponent(align);
    var n := WordWidth();
    ExponentBelowWidth(k, n);
    MaskRoundsDown(x, align, k, n);
    DivModUnique(x, align, 0, x);
  }

  /** Past the top of the address space the wrapped expression is 0. */
  lemma WrapUpIs(addr: Word, align: Word)
    requires IsPowerOfTwo(align)
    ensures WrapUp(addr, align) == if addr + align - 1 < WORD_LIMIT then AlignUp(addr, align) else 0
  {
    if addr + align - 1 < WORD_LIMIT {
      NoWrap(addr + align - 1);
      MaskUpIsAlignUp(addr, align);
    } else {
      Wraps(addr + align - 1);
      MaskOfSmall(addr + align - 1 - WORD_LIMIT, align);
    }
  }

  lemma NoWrap(x: nat)
    requires x < WORD_LIMIT
    ensures x % WORD_LIMIT == x
  {}

  lemma Wraps(x: nat)
    requires WORD_LIMIT <= x < 2 * WORD_LIMIT
    ensures x % WORD_LIMIT == x - WORD_LIMIT
  {}
}
