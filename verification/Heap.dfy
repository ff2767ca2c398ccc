/** The kernel heap: a first-fit, address-ordered, coalescing allocator whose list nodes live
    inside the free memory. */
module Heap {
  import opened Addr
  import opened Bits
  import opened FreeRuns
  import opened HeapList
  import opened Pools
  import opened Results

  const BLOCK_ALIGN := 16
  const MIN_BLOCK_SIZE := 16

  predicate BlockInv(r: Run)
  {
    && 0 < r.base && r.base % BLOCK_ALIGN == 0 && r.End() <= WORD_LIMIT
    && MIN_BLOCK_SIZE <= r.size && r.size % BLOCK_ALIGN == 0
  }

  ghost predicate BlocksInv(bs: seq<Run>)
  {
    Maximal(bs) && forall i :: 0 <= i < |bs| ==> BlockInv(bs[i])
  }

  /** `size.max(MIN_BLOCK_SIZE).next_multiple_of(BLOCK_ALIGN)`. */
  function BlockSize(size: Word): int
  {
    AlignUp(if size < MIN_BLOCK_SIZE then MIN_BLOCK_SIZE else size, BLOCK_ALIGN)
  }

  /** `align.max(BLOCK_ALIGN)`. */
  function BlockAlign(align: Word): Word
  {
    if align < BLOCK_ALIGN then BLOCK_ALIGN else align
  }

  /** `n` is the least block that holds `size` bytes: a multiple of 16, and no less than 16. */
  ghost predicate LeastBlock(n: int, size: int)
  {
    n % 16 == 0 && n >= 16 && n >= size && forall m :: IsBlockFor(m, size) ==> n <= m
  }

  predicate IsBlockFor(m: int, size: int) { m % 16 == 0 && m >= 16 && m >= size }

  /** `n` free bytes at a multiple of `align` and of 16. */
  ghost predicate FreeAt(free: set<int>, n: int, align: int, at: int)
    requires align > 0
  {
    at % align == 0 && at % 16 == 0 && Span(at, at + n) <= free
  }

  /** The rounding of a request is the least block that holds it. */
  lemma BlockSizeIsLeast(size: Word, n: int)
    ensures LeastBlock(BlockSize(size), size)
    ensures LeastBlock(n, size) ==> n == BlockSize(size)
  {
    var want := if size < MIN_BLOCK_SIZE then MIN_BLOCK_SIZE else size;
    forall m | IsBlockFor(m, size) ensures BlockSize(size) <= m {
      AlignUpIsLeast(want, BLOCK_ALIGN, m);
    }
    assert IsBlockFor(BlockSize(size), size);
    if LeastBlock(n, size) { assert IsBlockFor(n, size); }
  }

  /** A multiple of the larger alignment is a multiple of both. */
  lemma BlockAlignIsBoth(align: Word, at: int)
    requires IsPowerOfTwo(align)
    ensures align > 0 && (at % BlockAlign(align) == 0 <==> at % align == 0 && at % 16 == 0)
  {
    if align >= BLOCK_ALIGN {
      PowerOfTwoIsBlockAligned(align);
      if at % align == 0 { MultipleOfMultiple(at, align, BLOCK_ALIGN); }
    } else {
      SmallPowerDivides(align);
      if at % 16 == 0 { MultipleOfMultiple(at, BLOCK_ALIGN, align); }
    }
  }

  lemma SmallPowerDivides(align: Word)
    requires IsPowerOfTwo(align) && align < 16
    ensures align > 0 && 16 % align == 0
  {
    assert align == 1 || align == 2 || align == 4 || align == 8 by {
      if align > 1 { assert IsPowerOfTwo(align / 2); }
      if align > 2 { assert IsPowerOfTwo(align / 2 / 2); }
      if align > 4 { assert IsPowerOfTwo(align / 2 / 2 / 2); }
    }
  }

  lemma FitsIsFreeAt(free: set<int>, size: Word, align: Word, at: int)
    requires IsPowerOfTwo(align)
    ensures align > 0 && (Fits(free, BlockSize(size), BlockAlign(align), at) <==> FreeAt(free, BlockSize(size), align, at))
  {
    hide IsPowerOfTwo, BlockSize, BlockAlign;
    BlockAlignIsBoth(align, at);
  }

  /** The whole answer to a request, on the free set alone: the lowest place for the least block. */
  ghost predicate ServesAt(free: set<int>, free': set<int>, size: int, align: int, r: Run)
    requires align > 0
  {
    && LeastBlock(r.size, size) && FreeAt(free, r.size, align, r.base)
    && (forall at :: FreeAt(free, r.size, align, at) ==> r.base <= at)
    && free' == free - r.Addresses()
  }

  /** No place for a block that holds the request. */
  ghost predicate CannotServe(free: set<int>, size: int, align: int)
    requires align > 0
  {
    forall n, at :: LeastBlock(n, size) ==> !FreeAt(free, n, align, at)
  }

  lemma NotServed(free: set<int>, size: Word, align: Word)
    requires IsPowerOfTwo(align)
    ensures align > 0 && (CannotServe(free, size, align) <==> forall at :: !Fits(free, BlockSize(size), BlockAlign(align), at))
  {
    hide IsPowerOfTwo, BlockSize, LeastBlock, FreeAt, Fits;
    var n := BlockSize(size);
    PositivePower(align);
    BlockSizeIsLeast(size, n);
    if CannotServe(free, size, align) {
      forall at ensures !Fits(free, n, BlockAlign(align), at) { FitsIsFreeAt(free, size, align, at); }
    } else {
      var m, at :| LeastBlock(m, size) && FreeAt(free, m, align, at);
      BlockSizeIsLeast(size, m);
      FitsIsFreeAt(free, size, align, at);
    }
  }

  lemma ServedIsLowest(bs: seq<Run>, bs': seq<Run>, size: Word, align: Word, addr: int)
    requires IsPowerOfTwo(align) && AllocStep(bs, bs', BlockSize(size), BlockAlign(align), addr)
    ensures align > 0 && ServesAt(Cover(bs), Cover(bs'), size, align, Run(addr, BlockSize(size)))
  {
    hide IsPowerOfTwo, BlockSize, BlockAlign, LeastBlock, FreeAt, Fits, Cover;
    PositivePower(align);
    BlockSizeIsLeast(size, 0);
    FitsIsFreeAt(Cover(bs), size, align, addr);
    forall at | FreeAt(Cover(bs), BlockSize(size), align, at) ensures addr <= at {
      FitsIsFreeAt(Cover(bs), size, align, at);
    }
  }

  /** `align_up` overflows on a free block for the larger of the two alignments. */
  ghost predicate BlockNearTop(bs: seq<Run>, align: int)
  {
    exists i :: 0 <= i < |bs| && (bs[i].base + align > WORD_LIMIT || bs[i].base + 16 > WORD_LIMIT)
  }

  lemma NearTopIs(bs: seq<Run>, align: Word)
    ensures NearTop(bs, BlockAlign(align)) <==> BlockNearTop(bs, align)
  {
    if NearTop(bs, BlockAlign(align)) {
      var i :| 0 <= i < |bs| && bs[i].base + BlockAlign(align) - 1 >= WORD_LIMIT;
    }
    if BlockNearTop(bs, align) {
      var i :| 0 <= i < |bs| && (bs[i].base + align > WORD_LIMIT || bs[i].base + 16 > WORD_LIMIT);
      assert bs[i].base + BlockAlign(align) - 1 >= WORD_LIMIT;
    }
  }

  /** The requested bytes were free and are not any more. */
  lemma BytesServed(free: set<int>, free': set<int>, size: int, align: int, r: Run)
    requires align > 0 && ServesAt(free, free', size, align, r)
    ensures Span(r.base, r.base + size) <= free && Span(r.base, r.base + size) !! free'
  {
    assert Span(r.base, r.base + size) <= r.Addresses();
  }

  lemma RoundedFits(size: Word)
    requires size <= WORD_LIMIT - 16
    ensures BlockSize(size) < WORD_LIMIT
  {
    AlignUpIsLeast(if size < MIN_BLOCK_SIZE then MIN_BLOCK_SIZE else size, BLOCK_ALIGN, WORD_LIMIT - 16);
  }

  lemma BlocksAreSpaced(bs: seq<Run>)
    requires BlocksInv(bs)
    ensures Spaced(bs)
  {
    forall i, j | 0 <= i < j < |bs| ensures bs[i].base + HEADER <= bs[j].base {
      assert bs[i].End() < bs[j].base && BlockInv(bs[i]);
    }
  }

  lemma PowerOfTwoIsBlockAligned(align: Word)
    requires IsPowerOfTwo(align) && align >= BLOCK_ALIGN
    ensures align % BLOCK_ALIGN == 0
  {
    var a := align / 2;
    assert align == 2 * a && IsPowerOfTwo(a);
    var b := a / 2;
    assert a == 2 * b && IsPowerOfTwo(b);
    var c := b / 2;
    assert b == 2 * c && IsPowerOfTwo(c);
    assert c == 2 * (c / 2);
  }

  /** Every padding and every remainder is 0 or large enough to be a block. */
  lemma CarveKeepsBlocks(bs: seq<Run>, k: nat, at: int, size: int)
    requires BlocksInv(bs) && k < |bs| && BlockInv(Run(at, size))
    requires bs[k].base <= at && at + size <= bs[k].End()
    ensures BlocksInv(Carve(bs, k, at, size))
    ensures Cover(Carve(bs, k, at, size)) == Cover(bs) - Span(at, at + size)
    ensures at == bs[k].base || at - bs[k].base >= MIN_BLOCK_SIZE
    ensures bs[k].End() == at + size || bs[k].End() - (at + size) >= MIN_BLOCK_SIZE
  {
    hide Cover, Maximal, Carve;
    CarveIsRemoval(bs, k, at, size);
    var t := Carve(bs, k, at, size);
    assert BlockInv(bs[k]);
    FragmentIsBlock(bs[k].base, at);
    FragmentIsBlock(at + size, bs[k].End());
    forall i | 0 <= i < |t| ensures BlockInv(t[i]) {
      CarveElements(bs, k, at, size, i);
    }
  }

  lemma NoSliver(bs: seq<Run>, k: nat, at: int, size: int)
    requires BlocksInv(bs) && k < |bs| && BlockInv(Run(at, size))
    requires bs[k].base <= at && at + size <= bs[k].End()
    ensures bs[k].End() == at + size || bs[k].End() - (at + size) >= MIN_BLOCK_SIZE
  {
    hide Cover, Carve, Maximal;
    CarveKeepsBlocks(bs, k, at, size);
  }

  lemma FragmentIsBlock(lo: int, hi: int)
    requires 0 < lo <= hi <= WORD_LIMIT && lo % BLOCK_ALIGN == 0 && hi % BLOCK_ALIGN == 0
    ensures lo < hi ==> BlockInv(Run(lo, hi - lo)) && hi - lo >= MIN_BLOCK_SIZE
  {}

  lemma MergedIsBlock(bs: seq<Run>, pos: nat, r: Run)
    requires BlocksInv(bs) && BlockInv(r) && pos <= |bs|
    ensures BlockInv(Merged(bs, pos, r))
  {
    if pos > 0 { assert BlockInv(bs[pos - 1]); }
    if pos < |bs| { assert BlockInv(bs[pos]); }
  }

  lemma CoalesceKeepsBlocks(bs: seq<Run>, pos: nat, r: Run)
    requires BlocksInv(bs) && BlockInv(r) && InsertionPoint(bs, r.base, pos)
    requires r.Addresses() !! Cover(bs)
    ensures BlocksInv(Coalesce(bs, pos, r)) && FreeStep(bs, Coalesce(bs, pos, r), r)
  {
    hide Cover, Maximal, Coalesce;
    CoalesceIsUnion(bs, pos, r);
    var t := Coalesce(bs, pos, r);
    MergedIsBlock(bs, pos, r);
    forall i | 0 <= i < |t| ensures BlockInv(t[i]) {
      CoalesceElements(bs, pos, r, i);
    }
  }

  /** The tests `alloc` makes on one block before taking it, on wrapping words. */
  predicate BlockTest(block: Word, blockSize: int, size: Word, align: Word)
    requires align > 0
  {
    var padding := (WrapUp(block, align) - block) % WORD_LIMIT;
    && !(padding > 0 && padding < MIN_BLOCK_SIZE)
    && padding + size < WORD_LIMIT
    && blockSize >= padding + size
  }

  /** `align_up` of the address overflows a word. */
  predicate AlignOverflows(block: Word, align: Word) { block + align - 1 >= WORD_LIMIT }

  /** The tests accept a block exactly when it serves the request, also where `align_up` wraps. */
  lemma TestIsRunServes(r: Run, size: Word, align: Word)
    requires BlockInv(r) && IsPowerOfTwo(align) && align >= BLOCK_ALIGN && size > 0
    ensures BlockTest(r.base, r.size, size, align) <==> RunServes(r, size, align)
    ensures AlignOverflows(r.base, align) ==> !RunServes(r, size, align)
  {
    hide IsPowerOfTwo, WrapUp, AlignUp;
    WrapUpIs(r.base, align);
    PositivePower(align);
    if AlignOverflows(r.base, align) {
      OverflowMeansNoAlignedAddress(r.base, align);
      Wraps(2 * WORD_LIMIT - r.base);
      assert (0 - r.base) % WORD_LIMIT == WORD_LIMIT - r.base;
    } else {
      PowerOfTwoIsBlockAligned(align);
      PaddingIsBlock(r.base, align);
      AlignUpBelow(r.base, align);
      NoWrap(AlignUp(r.base, align) - r.base);
    }
  }

  lemma PositivePower(align: Word)
    requires IsPowerOfTwo(align)
    ensures align > 0
  {}

  lemma AlignUpBelow(addr: Word, align: Word)
    requires IsPowerOfTwo(align) && addr + align - 1 < WORD_LIMIT
    ensures addr <= AlignUp(addr, align) < WORD_LIMIT
  {
    RoundUpIsAlignUp(addr, align);
  }

  /** A free block starts so near the top of the address space that `align_up` overflows on it. */
  ghost predicate NearTop(bs: seq<Run>, align: int)
  {
    exists i :: 0 <= i < |bs| && bs[i].base + align - 1 >= WORD_LIMIT
  }

  /** A block on which `align_up` overflows comes after every block that serves the request. */
  lemma OverflowComesLast(bs: seq<Run>, i: nat, k: nat, size: Word, align: Word)
    requires BlocksInv(bs) && i < |bs| && k < |bs| && IsPowerOfTwo(align) && align >= BLOCK_ALIGN && size > 0
    requires AlignOverflows(bs[k].base, align) && RunServes(bs[i], size, align)
    ensures i < k
  {
    assert BlockInv(bs[i]) && BlockInv(bs[k]);
    TestIsRunServes(bs[i], size, align);
  }

  /** What a search for a block ends with. */
  datatype Search = Found | Missed | Overflow

  /** What `alloc` returns, or the panic of an overflow check. */
  datatype HeapResult = Served(addr: int) | NoFit | Overflowed

  class HeapAllocator {
    /** The memory the list lives in. */
    var words: Memory
    /** The first free block, or 0. */
    var head: int
    var totalBytes: int
    var freeBytes: int
    var allocCount: nat
    var deallocCount: nat

    ghost var blocks: seq<Run>
    ghost var live: seq<Run>
    ghost var donated: set<int>

    ghost predicate Valid()
      reads this
    {
      && BlocksInv(blocks) && Linked(head, words, blocks, 0)
      && PoolInv(donated, blocks, live)
      && (forall i :: 0 <= i < |live| ==> BlockInv(live[i]))
      && totalBytes == |donated| && freeBytes == Total(blocks)
      && allocCount == deallocCount + |live|
    }

    constructor ()
      ensures Valid() && blocks == [] && live == [] && donated == {} && words == map[]
    {
      words, head := map[], 0;
      totalBytes, freeBytes, allocCount, deallocCount := 0, 0, 0, 0;
      blocks, live, donated := [], [], {};
      new;
      assert Cover([]) == {};
    }

    /** Walks `prev_next` to the first block that serves the request; with `checked`, an overflow of
        `align_up` on the way is a panic. */
    method FindBlock(checked: bool, size: Word, align: Word) returns (found: Search, link: Link, ghost k: nat)
      requires Valid() && IsPowerOfTwo(align) && align >= BLOCK_ALIGN && size > 0
      ensures found.Found? ==> k < |blocks| && RunServes(blocks[k], size, align)
      ensures found.Found? ==> forall i :: 0 <= i < k ==> !RunServes(blocks[i], size, align)
      ensures !found.Found? ==> forall i :: 0 <= i < |blocks| ==> !RunServes(blocks[i], size, align)
      ensures !found.Found? ==> (found.Overflow? <==> checked && NearTop(blocks, align))
      ensures found.Found? ==> link == LinkAfter(blocks[..k])
    {
      hide IsPowerOfTwo, RunServes, BlockTest, PoolInv;
      link := Head;
      k := 0;
      while true
        invariant k <= |blocks|
        invariant link == LinkAfter(blocks[..k])
        invariant forall i :: 0 <= i < k ==> !RunServes(blocks[i], size, align)
        invariant checked ==> forall i :: 0 <= i < k ==> blocks[i].base + align - 1 < WORD_LIMIT
        decreases |blocks| - k
      {
        ReadAt(head, words, blocks, k);
        var block := ReadLink(link, head, words);
        assert k < |blocks| ==> BlockInv(blocks[k]);
        if block == 0 {
          return Missed, link, k;
        }
        var blockSize := words[block];
        if checked && AlignOverflows(block, align) {
          NoneServesAfter(blocks, k, size, align);
          return Overflow, link, k;
        }
        TestIsRunServes(blocks[k], size, align);
        if BlockTest(block, blockSize, size, align) {
          return Found, link, k;
        }
        assert blocks[..k + 1][k] == blocks[k];
        link := Next(block);
        k := k + 1;
      }
    }

    /** Shortens block `k` to the padding before the allocation, or unlinks it. */
    method ShrinkBlock(link: Link, block: int, next: int, padding: int, ghost k: nat) returns (link': Link)
      requires BlocksInv(blocks) && Linked(head, words, blocks, 0) && k < |blocks|
      requires link == LinkAfter(blocks[..k]) && block == blocks[k].base && next == PtrTo(blocks, k + 1, 0)
      modifies this`words, this`head
      ensures var left := blocks[..k] + Fragment(block, block + padding);
              link' == LinkAfter(left) && Linked(head, words, left + blocks[k + 1..], 0)
    {
      HeadShrinks(head, words, blocks, k, padding);
      if padding > 0 {
        words := WriteHeader(words, block, padding, next);
        link' := Next(block);
      } else {
        head, words := LinkedHead(link, head, next), LinkedWords(link, words, next);
        link' := link;
        assert blocks[..k] + [] == blocks[..k];
      }
    }

    /** Turns what follows the allocation into a block. */
    method LinkRemainder(link: Link, node: Run, next: int, ghost left: seq<Run>, ghost right: seq<Run>)
      requires Linked(head, words, left + right, 0) && Spaced(left + [node] + right)
      requires link == LinkAfter(left) && next == PtrTo(right, 0, 0)
      modifies this`words, this`head
      ensures Linked(head, words, left + [node] + right, 0)
    {
      SplitList(head, words, left, right);
      AppendBlock(head, words, left, next, node, right);
      words := WriteHeader(words, node.base, node.size, next);
      head, words := LinkedHead(link, head, node.base), LinkedWords(link, words, node.base);
    }

    /** Takes `[at, at + size)` out of block `k`. */
    method TakeBlock(link: Link, at: int, size: int, ghost k: nat) returns (consumed: int)
      requires BlocksInv(blocks) && Linked(head, words, blocks, 0) && k < |blocks|
      requires link == LinkAfter(blocks[..k]) && BlockInv(Run(at, size))
      requires blocks[k].base <= at && at + size <= blocks[k].End()
      modifies this`words, this`head, this`blocks
      ensures blocks == Carve(old(blocks), k, at, size)
      ensures Linked(head, words, blocks, 0)
      ensures consumed == size
    {
      hide Maximal, Chain, Spaced;
      NoSliver(blocks, k, at, size);
      ReadAt(head, words, blocks, k);
      var block := ReadLink(link, head, words);
      var blockSize, next := words[block], words[block + 8];
      CarveSpacing(blocks, k, at, size);
      var padding := at - block;
      var link' := ShrinkBlock(link, block, next, padding, k);
      var remainder := blockSize - padding - size;
      if remainder >= MIN_BLOCK_SIZE {
        LinkRemainder(link', Run(at + size, remainder), next, blocks[..k] + Fragment(block, at), blocks[k + 1..]);
      }
      blocks := Carve(blocks, k, at, size);
      var freedToRemainder := if remainder >= MIN_BLOCK_SIZE then remainder else 0;
      consumed := blockSize - padding - freedToRemainder;
    }

    /** First-fit allocation. */
    method Alloc(checked: bool, size: Word, align: Word) returns (r: HeapResult)
      requires Valid() && 0 < size <= WORD_LIMIT - 16 && IsPowerOfTwo(align)
      modifies this
      ensures Valid() && donated == old(donated) && totalBytes == old(totalBytes) && align > 0
      ensures !r.Served? <==> CannotServe(Cover(old(blocks)), size, align)
      ensures !r.Served? ==> (r.Overflowed? <==> checked && BlockNearTop(old(blocks), align))
      ensures !r.Served? ==> blocks == old(blocks) && live == old(live) && words == old(words) && allocCount == old(allocCount)
      ensures r.Served? ==>
        && |live| == |old(live)| + 1 && live[..|old(live)|] == old(live) && live[|old(live)|].base == r.addr
        && ServesAt(Cover(old(blocks)), Cover(blocks), size, align, live[|old(live)|])
        && freeBytes == old(freeBytes) - live[|old(live)|].size
        && allocCount == old(allocCount) + 1
      ensures r.Served? ==> AllocStep(old(blocks), blocks, BlockSize(size), BlockAlign(align), r.addr)
      ensures r.Served? ==> Span(r.addr, r.addr + size) <= Cover(old(blocks)) && Span(r.addr, r.addr + size) !! Cover(blocks)
      ensures deallocCount == old(deallocCount)
    {
      hide IsPowerOfTwo, BlockSize, BlockAlign, LeastBlock, AllocStep, BlocksInv, PoolInv, CannotServe, NearTop, BlockNearTop;
      RoundedRequest(size, align);
      RoundedFits(size);
      NotServed(Cover(blocks), size, align);
      NearTopIs(blocks, align);
      ghost var bs := blocks;
      r := AllocBlock(checked, BlockSize(size), BlockAlign(align));
      if r.Served? {
        ServedIsLowest(bs, blocks, size, align, r.addr);
        BytesServed(Cover(bs), Cover(blocks), size, align, live[|old(live)|]);
      }
    }

    /** The search and the split, on the rounded request. */
    method AllocBlock(checked: bool, size: Word, align: Word) returns (r: HeapResult)
      requires Valid() && IsPowerOfTwo(align) && align >= BLOCK_ALIGN
      requires size >= MIN_BLOCK_SIZE && size % BLOCK_ALIGN == 0
      modifies this
      ensures Valid() && donated == old(donated) && totalBytes == old(totalBytes)
      ensures !r.Served? <==> forall at :: !Fits(Cover(old(blocks)), size, align, at)
      ensures !r.Served? ==> (r.Overflowed? <==> checked && NearTop(old(blocks), align))
      ensures !r.Served? ==> blocks == old(blocks) && live == old(live) && words == old(words) && allocCount == old(allocCount)
      ensures r.Served? ==>
        && AllocStep(old(blocks), blocks, size, align, r.addr)
        && live == old(live) + [Run(r.addr, size)]
        && freeBytes == old(freeBytes) - size
        && allocCount == old(allocCount) + 1
      ensures deallocCount == old(deallocCount)
    {
      hide PoolInv;
      var fit, link, k := LocateFit(checked, size, align);
      if !fit.Served? {
        return fit;
      }
      var at := fit.addr;
      var consumed := TakeBlock(link, at, size, k);
      live := live + [Run(at, size)];
      freeBytes := freeBytes - consumed;
      allocCount := allocCount + 1;
      r := Served(at);
    }

    /** Finds the insertion point, links the block in and merges it with its neighbours. */
    method InsertAndCoalesce(block: int, size: int) returns (ghost pos: nat)
      requires BlocksInv(blocks) && Linked(head, words, blocks, 0)
      requires BlockInv(Run(block, size)) && Run(block, size).Addresses() !! Cover(blocks)
      modifies this`words, this`head, this`blocks
      ensures InsertionPoint(old(blocks), block, pos)
      ensures blocks == Coalesce(old(blocks), pos, Run(block, size))
      ensures Linked(head, words, blocks, 0)
    {
      ghost var bs, r := blocks, Run(block, size);
      var link, prev;
      link, prev, pos := FindPosition(block);
      InsertedRunSitsInGap(bs, pos, r);
      InsertSpacing(bs, pos, r);
      ReadAt(head, words, bs, pos);
      var next := ReadLink(link, head, words);
      SplitAt(head, words, bs, pos);
      AppendBlock(head, words, bs[..pos], next, r, bs[pos..]);
      words := WriteHeader(words, block, size, next);
      head, words := LinkedHead(link, head, block), LinkedWords(link, words, block);
      MergeNext(block, size, next, bs, pos);
      MergePrevious(prev, block, bs, pos, r);
      blocks := Coalesce(bs, pos, r);
    }

    /** Merges the inserted block with the block it ends at. */
    method MergeNext(block: int, size: int, next: int, ghost bs: seq<Run>, ghost pos: nat)
      requires BlocksInv(bs) && BlockInv(Run(block, size)) && pos <= |bs| && next == PtrTo(bs, pos, 0)
      requires Linked(head, words, Inserted(bs, pos, Run(block, size)), 0) && Spaced(Inserted(bs, pos, Run(block, size)))
      modifies this`words
      ensures Linked(head, words, RightMerged(bs, pos, Run(block, size)), 0)
      ensures Spaced(RightMerged(bs, pos, Run(block, size)))
    {
      hide Maximal, Chain, Spaced;
      ghost var r := Run(block, size);
      ghost var t := Inserted(bs, pos, r);
      assert pos < |bs| ==> BlockInv(bs[pos]);
      if next != 0 && block + size == next {
        ReadAt(head, words, t, pos + 1);
        var rightSize, rightNext := words[next], words[next + 8];
        Splice(head, words, t, pos, pos + 2, Run(block, size + rightSize));
        SpacedSplice(t, pos, pos + 2, Run(block, size + rightSize));
        assert t[..pos] == bs[..pos] && t[pos + 2..] == bs[pos + 1..];
        words := WriteHeader(words, block, size + rightSize, rightNext);
      } else {
        assert RightMerged(bs, pos, r) == t;
      }
    }

    /** Merges the block that ends where the inserted one starts. */
    method MergePrevious(prev: Option<int>, block: int, ghost bs: seq<Run>, ghost pos: nat, ghost r: Run)
      requires BlocksInv(bs) && BlockInv(r) && pos <= |bs| && block == r.base
      requires prev == if pos > 0 then Some(bs[pos - 1].base) else None
      requires Linked(head, words, RightMerged(bs, pos, r), 0) && Spaced(RightMerged(bs, pos, r))
      modifies this`words
      ensures Linked(head, words, Coalesce(bs, pos, r), 0)
    {
      hide Maximal, Chain, Spaced;
      ghost var t := RightMerged(bs, pos, r);
      if prev.Some? {
        var left := prev.value;
        ReadAt(head, words, t, pos - 1);
        ReadAt(head, words, t, pos);
        var leftSize := words[left];
        if left + leftSize == block {
          var mergedNext, mergedSize := words[block + 8], words[block];
          Splice(head, words, t, pos - 1, pos + 1, Run(left, leftSize + mergedSize));
          assert t[..pos - 1] == bs[..pos - 1] && t[pos + 1..] == bs[RightCut(bs, pos, r)..];
          words := WriteHeader(words, left, leftSize + mergedSize, mergedNext);
        }
      }
    }

    /** Walks to the last block that starts below `block`. */
    method FindPosition(block: int) returns (link: Link, prev: Option<int>, ghost pos: nat)
      requires BlocksInv(blocks) && Linked(head, words, blocks, 0) && block > 0
      ensures InsertionPoint(blocks, block, pos) && link == LinkAfter(blocks[..pos])
      ensures prev == if pos > 0 then Some(blocks[pos - 1].base) else None
    {
      link, prev, pos := Head, None, 0;
      while true
        invariant pos <= |blocks| && link == LinkAfter(blocks[..pos])
        invariant prev == if pos > 0 then Some(blocks[pos - 1].base) else None
        invariant forall i :: 0 <= i < pos ==> blocks[i].base < block
        decreases |blocks| - pos
      {
        ReadAt(head, words, blocks, pos);
        var next := ReadLink(link, head, words);
        assert pos < |blocks| ==> BlockInv(blocks[pos]);
        if next == 0 || next >= block {
          forall i | pos <= i < |blocks| ensures block <= blocks[i].base {
            if i > pos { assert blocks[pos].End() < blocks[i].base; }
          }
          return;
        }
        assert blocks[..pos + 1][pos] == blocks[pos];
        link, prev, pos := Next(next), Some(next), pos + 1;
      }
    }

    /** Returns block `k` of the live blocks. */
    method Dealloc(ptr: int, size: Word, ghost k: nat)
      requires Valid() && k < |live| && live[k].base == ptr && LeastBlock(live[k].size, size)
      modifies this
      ensures Valid() && donated == old(donated) && totalBytes == old(totalBytes)
      ensures FreeStep(old(blocks), blocks, old(live[k])) && live == Without(old(live), k)
      ensures Cover(blocks) == Cover(old(blocks)) + old(live[k]).Addresses() && Span(ptr, ptr + size) <= Cover(blocks)
      ensures freeBytes == old(freeBytes) + old(live[k]).size
      ensures deallocCount == old(deallocCount) + 1 && allocCount == old(allocCount)
    {
      hide PoolInv, Maximal, BlockSize;
      BlockSizeIsLeast(size, live[k].size);
      assert Span(ptr, ptr + size) <= live[k].Addresses();
      var blockSize := BlockSize(size);
      ghost var bs := blocks;
      LiveIsApart(donated, blocks, live, k);
      freeBytes := freeBytes + blockSize;
      deallocCount := deallocCount + 1;
      ghost var pos := InsertAndCoalesce(ptr, blockSize);
      BlockReturned(donated, bs, live, k, pos);
      live := Without(live, k);
    }

    /** Donates memory outside the heap; false is one of the assertions failing. */
    method AddMemory(ptr: Word, size: Word) returns (ok: bool)
      requires Valid() && ptr + size <= WORD_LIMIT && Span(ptr, ptr + size) !! donated
      modifies this
      ensures ok <==> ptr != 0 && ptr % BLOCK_ALIGN == 0 && size >= MIN_BLOCK_SIZE
      ensures Valid() && live == old(live) && allocCount == old(allocCount) && deallocCount == old(deallocCount)
      ensures !ok ==> blocks == old(blocks) && donated == old(donated)
      ensures ok ==> var r := Run(ptr, size - size % BLOCK_ALIGN);
                     FreeStep(old(blocks), blocks, r) && donated == old(donated) + r.Addresses()
    {
      if ptr == 0 || ptr % BLOCK_ALIGN != 0 || size < MIN_BLOCK_SIZE {
        return false;
      }
      hide PoolInv, Maximal, Cover, And, Linked, BlocksInv;
      SizeMask(size);
      DonatedBlock(ptr, size);
      var size' := And(size, WORD_LIMIT - 1 - (BLOCK_ALIGN - 1));
      DonationIsApart(donated, blocks, live, ptr, size, Run(ptr, size'));
      Donate(ptr, size');
      ok := true;
    }

    method Donate(ptr: int, size: int)
      requires Valid() && BlockInv(Run(ptr, size))
      requires Run(ptr, size).Addresses() !! Cover(blocks) && Run(ptr, size).Addresses() !! donated
      modifies this
      ensures Valid() && live == old(live) && allocCount == old(allocCount) && deallocCount == old(deallocCount)
      ensures FreeStep(old(blocks), blocks, Run(ptr, size)) && donated == old(donated) + Run(ptr, size).Addresses()
    {
      hide PoolInv, Maximal, Chain, Cover, Span;
      ghost var bs, r := blocks, Run(ptr, size);
      DonationIsClear(blocks, r);
      HeaderKeepsChain(words, blocks, 0, ptr, size, 0);
      words := WriteHeader(words, ptr, size, 0);
      totalBytes := totalBytes + size;
      freeBytes := freeBytes + size;
      ghost var pos := InsertAndCoalesce(ptr, size);
      MemoryDonated(donated, bs, live, r, pos);
      donated := donated + r.Addresses();
    }

    /** A client writes into memory it was given. */
    method ClientWrite(addr: int, v: int)
      requires Valid() && Span(addr, addr + 8) <= Cover(live)
      modifies this`words
      ensures Valid() && words == old(words)[addr := v]
    {
      LiveWriteIsClear(donated, blocks, live, addr);
      WriteKeepsChain(words, blocks, 0, addr, v);
      words := words[addr := v];
    }

    /** Counts the nodes by walking the list. */
    method FreeListLen() returns (count: nat)
      requires Valid()
      ensures count == |blocks|
    {
      count := 0;
      var current := head;
      while current != 0
        invariant count <= |blocks| && current == PtrTo(blocks, count, 0)
        decreases |blocks| - count
      {
        ReadAt(head, words, blocks, count);
        assert count + 1 < |blocks| ==> BlockInv(blocks[count + 1]);
        count := count + 1;
        current := words[current + 8];
      }
      assert count < |blocks| ==> BlockInv(blocks[count]);
    }

    /** Balanced statistics mean that nothing is live and the free list is the whole donation. */
    method IsBalanced() returns (b: bool)
      requires Valid()
      ensures b <==> live == []
      ensures b ==> Cover(blocks) == donated
    {
      BytesAreConserved(donated, blocks, live);
      b := allocCount == deallocCount && freeBytes == totalBytes;
    }

    /** The search together with what it establishes about the free set. */
    method LocateFit(checked: bool, size: Word, align: Word) returns (fit: HeapResult, link: Link, ghost k: nat)
      requires Valid() && IsPowerOfTwo(align) && align >= BLOCK_ALIGN
      requires size >= MIN_BLOCK_SIZE && size % BLOCK_ALIGN == 0
      ensures !fit.Served? <==> forall at :: !Fits(Cover(blocks), size, align, at)
      ensures !fit.Served? ==> (fit.Overflowed? <==> checked && NearTop(blocks, align))
      ensures fit.Served? ==> k < |blocks| && link == LinkAfter(blocks[..k])
      ensures fit.Served? ==> TakesFit(donated, blocks, live, k, size, align, fit.addr)
    {
      hide NearTop;
      var found;
      found, link, k := FindBlock(checked, size, align);
      match found
      case Missed =>
        NoRunServesNoFit(blocks, size, align);
        fit := NoFit;
      case Overflow =>
        NoRunServesNoFit(blocks, size, align);
        fit := Overflowed;
      case Found =>
        ReadAt(head, words, blocks, k);
        var block := ReadLink(link, head, words);
        assert BlockInv(blocks[k]);
        BlockFound(donated, blocks, live, k, size, align);
        fit := Served(WrapUp(block, align));
    }
  }

  /** Once `align_up` overflows on a block, no later block serves the request. */
  lemma NoneServesAfter(bs: seq<Run>, k: nat, size: Word, align: Word)
    requires BlocksInv(bs) && k < |bs| && IsPowerOfTwo(align) && align >= BLOCK_ALIGN && size > 0
    requires BlockInv(bs[k]) && AlignOverflows(bs[k].base, align)
    requires forall i :: 0 <= i < k ==> !RunServes(bs[i], size, align)
    ensures forall i :: 0 <= i < |bs| ==> !RunServes(bs[i], size, align)
  {
    hide RunServes, IsPowerOfTwo;
    forall i | k <= i < |bs| ensures !RunServes(bs[i], size, align) {
      if RunServes(bs[i], size, align) { OverflowComesLast(bs, i, k, size, align); }
    }
  }

  lemma LiveIsApart(donated: set<int>, bs: seq<Run>, live: seq<Run>, k: nat)
    requires PoolInv(donated, bs, live) && k < |live|
    ensures live[k].Addresses() !! Cover(bs)
  {
    RunIsCovered(live, k);
  }

  lemma BlockReturned(donated: set<int>, bs: seq<Run>, live: seq<Run>, k: nat, pos: nat)
    requires BlocksInv(bs) && PoolInv(donated, bs, live) && k < |live| && BlockInv(live[k])
    requires live[k].Addresses() !! Cover(bs) && InsertionPoint(bs, live[k].base, pos)
    ensures var t := Coalesce(bs, pos, live[k]);
            && BlocksInv(t) && FreeStep(bs, t, live[k])
            && PoolInv(donated, t, Without(live, k))
            && Total(t) == Total(bs) + live[k].size
  {
    var t := Coalesce(bs, pos, live[k]);
    CoalesceKeepsBlocks(bs, pos, live[k]);
    FreeKeepsPool(donated, bs, t, live, k);
    TotalAfterUnion(bs, t, live[k]);
  }

  lemma TotalAfterUnion(a: seq<Run>, b: seq<Run>, r: Run)
    requires Maximal(a) && FreeStep(a, b, r) && r.size > 0 && r.Addresses() !! Cover(a)
    ensures Total(b) == Total(a) + r.size && |r.Addresses()| == r.size
  {
    MaximalIsDisjoint(a);
    MaximalIsDisjoint(b);
    TotalIsCardinality(a);
    TotalIsCardinality(b);
    SpanSize(r.base, r.End());
  }

  lemma SizeMask(size: Word)
    ensures And(size, WORD_LIMIT - 1 - (BLOCK_ALIGN - 1)) == size - size % BLOCK_ALIGN
  {
    var n := WordWidth();
    assert Pow2(4) == BLOCK_ALIGN;
    AndAlignDown(size, 4, n);
  }

  lemma DonatedBlock(ptr: Word, size: Word)
    requires ptr != 0 && ptr % BLOCK_ALIGN == 0 && size >= MIN_BLOCK_SIZE && ptr + size <= WORD_LIMIT
    ensures BlockInv(Run(ptr, size - size % BLOCK_ALIGN))
  {}

  lemma DonationIsApart(donated: set<int>, bs: seq<Run>, live: seq<Run>, ptr: int, size: int, r: Run)
    requires PoolInv(donated, bs, live) && Span(ptr, ptr + size) !! donated
    requires r.base == ptr && 0 <= r.size <= size
    ensures r.Addresses() !! Cover(bs) && r.Addresses() !! donated
  {
    assert r.Addresses() <= Span(ptr, ptr + size);
  }

  lemma DonationIsClear(bs: seq<Run>, r: Run)
    requires BlocksInv(bs) && BlockInv(r) && r.Addresses() !! Cover(bs)
    ensures ClearOf(bs, r.base) && ClearOf(bs, r.base + 8)
  {
    assert r.base in r.Addresses() && r.base + 8 in r.Addresses();
    forall i | 0 <= i < |bs|
      ensures bs[i].base != r.base && bs[i].base + 8 != r.base && bs[i].base != r.base + 8 && bs[i].base + 8 != r.base + 8
    {
      assert BlockInv(bs[i]);
      RunIsCovered(bs, i);
      assert bs[i].base in bs[i].Addresses() && bs[i].base + 8 in bs[i].Addresses();
    }
  }

  lemma MemoryDonated(donated: set<int>, bs: seq<Run>, live: seq<Run>, r: Run, pos: nat)
    requires BlocksInv(bs) && PoolInv(donated, bs, live) && BlockInv(r)
    requires r.Addresses() !! Cover(bs) && r.Addresses() !! donated && InsertionPoint(bs, r.base, pos)
    ensures var t := Coalesce(bs, pos, r);
            && BlocksInv(t) && FreeStep(bs, t, r)
            && PoolInv(donated + r.Addresses(), t, live)
            && Total(t) == Total(bs) + r.size
            && |donated + r.Addresses()| == |donated| + r.size
  {
    CoalesceKeepsBlocks(bs, pos, r);
    TotalAfterUnion(bs, Coalesce(bs, pos, r), r);
  }

  lemma LiveWriteIsClear(donated: set<int>, bs: seq<Run>, live: seq<Run>, addr: int)
    requires BlocksInv(bs) && PoolInv(donated, bs, live) && Span(addr, addr + 8) <= Cover(live)
    ensures ClearOf(bs, addr)
  {
    assert addr in Span(addr, addr + 8);
    forall i | 0 <= i < |bs| ensures bs[i].base != addr && bs[i].base + 8 != addr {
      assert BlockInv(bs[i]);
      RunIsCovered(bs, i);
      assert bs[i].base in bs[i].Addresses() && bs[i].base + 8 in bs[i].Addresses();
    }
  }

  /** The list with `r` put in at `pos`, and then merged to the right. */
  function Inserted(bs: seq<Run>, pos: nat, r: Run): seq<Run>
    requires pos <= |bs|
  {
    bs[..pos] + [r] + bs[pos..]
  }

  function RightMerged(bs: seq<Run>, pos: nat, r: Run): seq<Run>
    requires pos <= |bs|
  {
    var end := if JoinsRight(bs, pos, r) then bs[pos].End() else r.End();
    bs[..pos] + [Run(r.base, end - r.base)] + bs[RightCut(bs, pos, r)..]
  }

  lemma InsertSpacing(bs: seq<Run>, pos: nat, r: Run)
    requires BlocksInv(bs) && BlockInv(r) && pos <= |bs|
    requires forall i :: 0 <= i < pos ==> bs[i].End() <= r.base
    requires forall i :: pos <= i < |bs| ==> r.End() <= bs[i].base
    ensures Spaced(Inserted(bs, pos, r))
  {
    BlocksAreSpaced(bs);
    var t := Inserted(bs, pos, r);
    forall i, j | 0 <= i < j < |t| ensures t[i].base + HEADER <= t[j].base {
      if j == pos { assert BlockInv(bs[i]); }
      else if i != pos { assert bs[if i < pos then i else i - 1].base + HEADER <= bs[if j < pos then j else j - 1].base; }
    }
  }

  /** Taking `[at, at + size)` out of block `k` is the allocation the specification asks for. */
  ghost predicate TakesFit(donated: set<int>, bs: seq<Run>, live: seq<Run>, k: nat, size: int, align: int, at: int)
    requires k < |bs|
  {
    && BlockInv(Run(at, size)) && bs[k].base <= at && at + size <= bs[k].End()
    && var t := Carve(bs, k, at, size);
    && BlocksInv(t) && AllocStep(bs, t, size, align, at)
    && PoolInv(donated, t, live + [Run(at, size)])
    && Total(t) == Total(bs) - size
  }

  lemma RoundedRequest(size: Word, align: Word)
    requires size > 0 && IsPowerOfTwo(align)
    ensures BlockSize(size) >= MIN_BLOCK_SIZE && BlockSize(size) % BLOCK_ALIGN == 0
    ensures IsPowerOfTwo(BlockAlign(align)) && BlockAlign(align) >= BLOCK_ALIGN
  {
    assert IsPowerOfTwo(BLOCK_ALIGN);
  }

  /** The first block that serves the request holds the lowest fit of the whole free set. */
  lemma BlockFound(donated: set<int>, bs: seq<Run>, live: seq<Run>, k: nat, size: Word, align: Word)
    requires BlocksInv(bs) && PoolInv(donated, bs, live) && k < |bs| && BlockInv(bs[k])
    requires IsPowerOfTwo(align) && align >= BLOCK_ALIGN
    requires size >= MIN_BLOCK_SIZE && size % BLOCK_ALIGN == 0 && RunServes(bs[k], size, align)
    requires forall i :: 0 <= i < k ==> !RunServes(bs[i], size, align)
    ensures TakesFit(donated, bs, live, k, size, align, WrapUp(bs[k].base, align))
  {
    BlockAddress(bs[k], size, align);
    var at := AlignUp(bs[k].base, align);
    var t := Carve(bs, k, at, size);
    FirstFitIsLowest(bs, k, size, align);
    CarveKeepsBlocks(bs, k, at, size);
    AllocKeepsPool(donated, bs, t, live, size, align, at);
    BytesAreConserved(donated, bs, live);
    BytesAreConserved(donated, t, live + [Run(at, size)]);
    TotalSnoc(live, Run(at, size));
  }

  lemma TotalSnoc(rs: seq<Run>, r: Run)
    ensures Total(rs + [r]) == Total(rs) + r.size
  {
    assert (rs + [r])[..|rs|] == rs;
  }

  /** After the block before the allocation is shortened or unlinked, the rest is still a list. */
  lemma HeadShrinks(head: int, w: Memory, bs: seq<Run>, k: nat, padding: int)
    requires BlocksInv(bs) && Linked(head, w, bs, 0) && k < |bs|
    ensures var next := PtrTo(bs, k + 1, 0);
            var l := LinkAfter(bs[..k]);
            && Linked(head, WriteHeader(w, bs[k].base, padding, next), bs[..k] + [Run(bs[k].base, padding)] + bs[k + 1..], 0)
            && Linked(LinkedHead(l, head, next), LinkedWords(l, w, next), bs[..k] + bs[k + 1..], 0)
  {
    BlocksAreSpaced(bs);
    SplitAt(head, w, bs, k);
    SplitAt(head, w, bs, k + 1);
    var m := Run(bs[k].base, padding);
    SpacedByBase(bs, bs[..k] + [m] + bs[k + 1..]);
    ReplaceBlock(head, w, bs[..k], m, bs[k + 1..]);
    UnlinkBlock(head, w, bs, k);
    var next := PtrTo(bs, k + 1, 0);
    var l := LinkAfter(bs[..k]);
    JoinList(LinkedHead(l, head, next), LinkedWords(l, w, next), bs[..k], bs[k + 1..]);
  }

  lemma SpacedByBase(a: seq<Run>, b: seq<Run>)
    requires Spaced(a) && |a| == |b| && forall i :: 0 <= i < |a| ==> a[i].base == b[i].base
    ensures Spaced(b)
  {
    forall i, j | 0 <= i < j < |b| ensures b[i].base + HEADER <= b[j].base {
      assert a[i].base + HEADER <= a[j].base;
    }
  }

  lemma SplitList(head: int, w: Memory, a: seq<Run>, b: seq<Run>)
    requires Linked(head, w, a + b, 0)
    ensures Linked(head, w, a, PtrTo(b, 0, 0)) && Chain(w, b, 0)
  {
    LinkedConcat(head, w, a, b, 0);
  }

  lemma CarveSpacing(bs: seq<Run>, k: nat, at: int, size: int)
    requires BlocksInv(bs) && k < |bs| && BlockInv(Run(at, size))
    requires bs[k].base <= at && at + size <= bs[k].End()
    ensures var left := bs[..k] + Fragment(bs[k].base, at);
            var remainder := bs[k].End() - (at + size);
            if remainder >= MIN_BLOCK_SIZE
            then Carve(bs, k, at, size) == left + [Run(at + size, remainder)] + bs[k + 1..]
                 && Spaced(left + [Run(at + size, remainder)] + bs[k + 1..])
            else Carve(bs, k, at, size) == left + bs[k + 1..]
  {
    CarveKeepsBlocks(bs, k, at, size);
    BlocksAreSpaced(Carve(bs, k, at, size));
  }

  /** The aligned start inside a block: computed without overflow, padding never in between. */
  lemma BlockAddress(r: Run, size: Word, align: Word)
    requires BlockInv(r) && IsPowerOfTwo(align) && align >= BLOCK_ALIGN && size > 0 && RunServes(r, size, align)
    ensures WrapUp(r.base, align) == AlignUp(r.base, align) && AlignUp(r.base, align) % BLOCK_ALIGN == 0
  {
    TestIsRunServes(r, size, align);
    WrapUpIs(r.base, align);
    PowerOfTwoIsBlockAligned(align);
    PaddingIsBlock(r.base, align);
  }

  lemma PaddingIsBlock(base: int, align: int)
    requires align > 0 && align % BLOCK_ALIGN == 0 && base % BLOCK_ALIGN == 0
    ensures AlignUp(base, align) % BLOCK_ALIGN == 0
    ensures var p := AlignUp(base, align) - base; p == 0 || p >= MIN_BLOCK_SIZE
  {
    MultipleOfMultiple(AlignUp(base, align), align, BLOCK_ALIGN);
  }
}
