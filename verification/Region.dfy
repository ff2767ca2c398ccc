/** The virtual-region allocator: a fixed array of sorted free regions with first-fit
    allocation, splitting and merging. */
module Region {
  import opened Addr
  import Bits
  import opened FreeRuns
  import opened Pools

  const CAPACITY := 64

  datatype RegionError = OutOfVirtualMemory | TrackerFull | UnalignedAddress

  /** What a call does: a value, an error returned to the caller, or a kernel panic. */
  datatype Outcome<T> = Ok(value: T) | Err(error: RegionError) | Panic

  predicate PageAligned(r: Run)
  {
    r.base % PAGE_SIZE == 0 && r.size % PAGE_SIZE == 0
  }

  predicate SlotInv(r: Run)
  {
    PageAligned(r) && 0 <= r.base && 0 < r.size < WORD_LIMIT && r.End() <= WORD_LIMIT
  }

  /** The slot prefix: maximal page-aligned runs inside the 64-bit address space. */
  ghost predicate SlotsInv(s: seq<Run>)
  {
    && |s| <= CAPACITY && Maximal(s)
    && forall i :: 0 <= i < |s| ==> SlotInv(s[i])
  }

  /** The requests `alloc` rejects before searching. */
  predicate BadRequest(size: Word, align: Word)
  {
    size == 0 || size % PAGE_SIZE != 0 || !IsPowerOfTwo(align) || align % PAGE_SIZE != 0
  }

  lemma BadRequestIs(size: Word, align: Word)
    ensures BadRequest(size, align)
      <==> size == 0 || size % 4096 != 0 || align % 4096 != 0 || !exists k: nat :: align == Bits.Pow2(k)
  {
    hide IsPowerOfTwo;
    PowerOfTwoIff(align, 0);
    forall k: nat | align == Bits.Pow2(k) ensures IsPowerOfTwo(align) { PowerOfTwoIff(0, k); }
  }

  /** Both fragments around the lowest fit are non-empty: its two neighbouring addresses are free. */
  ghost predicate SplitsInThree(free: seq<Run>, size: int, align: int)
    requires align > 0
  {
    exists at :: LowestFit(Cover(free), size, align, at) && at - 1 in Cover(free) && at + size in Cover(free)
  }

  /** `self.end() == other.base`, where an end at the top of the address space has overflowed. */
  predicate LeftAdjacent(a: Run, b: Run)
  {
    a.End() < WORD_LIMIT && a.End() == b.base
  }

  function MergeRight(s: seq<Run>, pos: nat): seq<Run>
    requires pos < |s|
  {
    if pos + 1 < |s| && LeftAdjacent(s[pos], s[pos + 1])
    then s[..pos] + [Run(s[pos].base, s[pos].size + s[pos + 1].size)] + s[pos + 2..]
    else s
  }

  function MergeLeft(s: seq<Run>, pos: nat): seq<Run>
    requires pos < |s|
  {
    if pos > 0 then MergeRight(s, pos - 1) else s
  }

  /** Inserting and then merging right and left is coalescing into the gap. */
  lemma InsertThenMergeIsCoalesce(s: seq<Run>, pos: nat, r: Run)
    requires pos <= |s|
    requires forall i :: 0 <= i < |s| ==> 0 <= s[i].base < WORD_LIMIT
    requires 0 <= r.base < WORD_LIMIT
    ensures var t := s[..pos] + [r] + s[pos..];
            && MergeLeft(MergeRight(t, pos), pos) == Coalesce(s, pos, r)
  {
    var t := s[..pos] + [r] + s[pos..];
    var u := MergeRight(t, pos);
    if JoinsRight(s, pos, r) {
      assert u == s[..pos] + [Run(r.base, r.size + s[pos].size)] + s[pos + 1..];
    } else {
      assert u == t;
    }
    if JoinsLeft(s, pos, r) {
      assert MergeLeft(u, pos) == s[..pos - 1] + [Merged(s, pos, r)] + s[RightCut(s, pos, r)..];
    }
  }

  lemma CoalesceKeepsSlots(s: seq<Run>, pos: nat, r: Run)
    requires SlotsInv(s) && |s| < CAPACITY && InsertionPoint(s, r.base, pos)
    requires SlotInv(r) && r.Addresses() !! Cover(s)
    requires Cover(s) + r.Addresses() != Span(0, WORD_LIMIT)
    ensures SlotsInv(Coalesce(s, pos, r)) && FreeStep(s, Coalesce(s, pos, r), r)
  {
    CoalesceIsUnion(s, pos, r);
    var t := Coalesce(s, pos, r);
    MergedIsSlot(s, pos, r);
    forall i | 0 <= i < |t| ensures SlotInv(t[i]) {
      CoalesceElements(s, pos, r, i);
    }
  }

  /** Merging cannot overflow the size unless the whole address space is free. */
  lemma MergedIsSlot(s: seq<Run>, pos: nat, r: Run)
    requires SlotsInv(s) && SlotInv(r) && pos <= |s|
    requires Cover(Coalesce(s, pos, r)) == Cover(s) + r.Addresses() != Span(0, WORD_LIMIT)
    ensures SlotInv(Merged(s, pos, r))
  {
    hide Cover, Maximal;
    var t, l, m := Coalesce(s, pos, r), LeftCut(s, pos, r), Merged(s, pos, r);
    assert t[l] == m;
    RunIsCovered(t, l);
    CoverInWord(s);
    if pos > 0 { assert SlotInv(s[pos - 1]); }
    if pos < |s| { assert SlotInv(s[pos]); }
    if m.size >= WORD_LIMIT { WholeSpace(m); }
  }

  lemma WholeSpace(m: Run)
    requires 0 <= m.base && m.End() <= WORD_LIMIT <= m.size
    ensures m.Addresses() == Span(0, WORD_LIMIT)
  {}

  lemma CoverInWord(s: seq<Run>)
    requires SlotsInv(s)
    ensures Cover(s) <= Span(0, WORD_LIMIT)
  {
    forall x | x in Cover(s) ensures 0 <= x < WORD_LIMIT {
      var i := RunOf(s, x);
      assert SlotInv(s[i]);
    }
  }

  lemma PoolInWord(pool: set<int>, s: seq<Run>, live: seq<Run>)
    requires SlotsInv(s) && PoolInv(pool, s, live)
    requires forall i :: 0 <= i < |live| ==> SlotInv(live[i])
    ensures pool <= Span(0, WORD_LIMIT)
  {
    CoverInWord(s);
    forall x | x in Cover(live) ensures 0 <= x < WORD_LIMIT {
      var i := RunOf(live, x);
      assert SlotInv(live[i]);
    }
  }

  /** What the search tests for one slot, with both overflow checks. */
  predicate SlotFits(slot: Run, size: Word, align: Word)
    requires align > 0 && 0 <= slot.base < WORD_LIMIT
  {
    && slot.base + (align - 1) < WORD_LIMIT
    && var padding := MaskUp(slot.base, align) - slot.base;
    && padding + size < WORD_LIMIT
    && slot.size >= padding + size
  }

  /** The overflow checks drop no slot that could serve the request. */
  lemma SlotFitsIsRunServes(slot: Run, size: Word, align: Word)
    requires IsPowerOfTwo(align) && size > 0 && SlotInv(slot)
    ensures SlotFits(slot, size, align) <==> RunServes(slot, size, align)
  {
    if slot.base + (align - 1) < WORD_LIMIT {
      MaskUpIsAlignUp(slot.base, align);
    } else {
      OverflowMeansNoAlignedAddress(slot.base, align);
    }
  }

  lemma CarveKeepsSlots(s: seq<Run>, k: nat, at: int, size: int)
    requires SlotsInv(s) && k < |s| && size > 0 && size % PAGE_SIZE == 0 && at % PAGE_SIZE == 0
    requires s[k].base <= at && at + size <= s[k].End()
    requires |Carve(s, k, at, size)| <= CAPACITY
    ensures SlotsInv(Carve(s, k, at, size)) && Cover(Carve(s, k, at, size)) == Cover(s) - Span(at, at + size)
  {
    hide Cover, Maximal, Carve;
    CarveIsRemoval(s, k, at, size);
    var t := Carve(s, k, at, size);
    forall i | 0 <= i < |t| ensures SlotInv(t[i]) { CarvedSlot(s, k, at, size, i); }
  }

  lemma CarvedSlot(s: seq<Run>, k: nat, at: int, size: int, i: nat)
    requires SlotsInv(s) && k < |s| && size > 0 && size % PAGE_SIZE == 0 && at % PAGE_SIZE == 0
    requires s[k].base <= at && at + size <= s[k].End() && i < |Carve(s, k, at, size)|
    ensures SlotInv(Carve(s, k, at, size)[i])
  {
    hide Cover, Maximal, Carve;
    assert SlotInv(s[k]);
    CarveElements(s, k, at, size, i);
  }

  /** The fragments around a carved range are non-empty exactly when its neighbours are free. */
  lemma FragmentsAreNeighbours(s: seq<Run>, k: nat, at: int, size: int)
    requires Maximal(s) && k < |s| && size > 0
    requires s[k].base <= at && at + size <= s[k].End()
    ensures s[k].base < at <==> at - 1 in Cover(s)
    ensures at + size < s[k].End() <==> at + size in Cover(s)
  {
    RunIsCovered(s, k);
    RunEndIsNotCovered(s, k);
    if at == s[k].base && at - 1 in Cover(s) {
      var i := RunOf(s, at - 1);
    }
  }

  lemma SplitIsAtTheFit(s: seq<Run>, k: nat, size: int, align: int)
    requires Maximal(s) && k < |s| && size > 0 && align > 0
    requires LowestFit(Cover(s), size, align, AlignUp(s[k].base, align))
    requires RunServes(s[k], size, align)
    ensures SplitsInThree(s, size, align)
      <==> (s[k].base < AlignUp(s[k].base, align) && AlignUp(s[k].base, align) + size < s[k].End())
  {
    FragmentsAreNeighbours(s, k, AlignUp(s[k].base, align), size);
  }

  /** How many slots are in use after `[at, at + size)` has been taken out of a free slot. */
  ghost function SlotsAfter(s: seq<Run>, size: int, at: int): int
  {
    |s| - 1 + (if at - 1 in Cover(s) then 1 else 0) + (if at + size in Cover(s) then 1 else 0)
  }

  lemma SlotsAfterTake(s: seq<Run>, t: seq<Run>, size: int, align: int, at: int)
    requires Maximal(s) && AllocStep(s, t, size, align, at)
    ensures |t| == SlotsAfter(s, size, at)
  {
    var k := SpanInOneRun(s, at, at + size);
    CarveIsRemoval(s, k, at, size);
    FreeListIsCanonical(t, Carve(s, k, at, size));
    FragmentsAreNeighbours(s, k, at, size);
  }

  /** The slots an allocation needs are the runs of the free set it leaves. */
  lemma SlotsAreRuns(s: seq<Run>, size: int, align: int, at: int)
    requires Maximal(s) && size > 0 && align > 0 && LowestFit(Cover(s), size, align, at)
    ensures |Starts(Cover(s) - Span(at, at + size))| == SlotsAfter(s, size, at)
  {
    hide Cover, Starts, SlotsAfter, Carve;
    var k := SpanInOneRun(s, at, at + size);
    var t := Carve(s, k, at, size);
    CarveIsRemoval(s, k, at, size);
    SlotsAfterTake(s, t, size, align, at);
    RunCount(t);
  }

  lemma SplitIsOverflow(s: seq<Run>, size: int, align: int, at: int)
    requires |s| <= CAPACITY && align > 0 && LowestFit(Cover(s), size, align, at)
    ensures |s| == CAPACITY && SplitsInThree(s, size, align) <==> SlotsAfter(s, size, at) > CAPACITY
  {
  }

  lemma SlotAddress(s: seq<Run>, k: nat, size: Word, align: Word)
    requires SlotsInv(s) && k < |s| && !BadRequest(size, align) && RunServes(s[k], size, align)
    ensures s[k].base + align - 1 < WORD_LIMIT
    ensures MaskUp(s[k].base, align) == AlignUp(s[k].base, align)
  {
    assert SlotInv(s[k]);
    SlotFitsIsRunServes(s[k], size, align);
    MaskUpIsAlignUp(s[k].base, align);
  }

  /** What the search has found: the lowest fit, and whether splitting it needs an extra slot. */
  lemma FitFound(s: seq<Run>, k: nat, size: Word, align: Word)
    requires SlotsInv(s) && k < |s| && !BadRequest(size, align) && RunServes(s[k], size, align)
    requires forall i :: 0 <= i < k ==> !RunServes(s[i], size, align)
    ensures s[k].base + align - 1 < WORD_LIMIT
    ensures MaskUp(s[k].base, align) == AlignUp(s[k].base, align)
    ensures LowestFit(Cover(s), size, align, AlignUp(s[k].base, align))
    ensures |Carve(s, k, AlignUp(s[k].base, align), size)| > |s| <==> SplitsInThree(s, size, align)
    ensures |Carve(s, k, AlignUp(s[k].base, align), size)| <= |s| + 1
  {
    SlotAddress(s, k, size, align);
    FirstFitIsLowest(s, k, size, align);
    SplitIsAtTheFit(s, k, size, align);
  }

  lemma FitTaken(pool: set<int>, s: seq<Run>, live: seq<Run>, k: nat, size: Word, align: Word)
    requires SlotsInv(s) && k < |s| && !BadRequest(size, align) && RunServes(s[k], size, align)
    requires PoolInv(pool, s, live)
    requires LowestFit(Cover(s), size, align, AlignUp(s[k].base, align))
    requires |Carve(s, k, AlignUp(s[k].base, align), size)| <= CAPACITY
    ensures var at := AlignUp(s[k].base, align);
            var t := Carve(s, k, at, size);
            && SlotsInv(t) && SlotInv(Run(at, size))
            && AllocStep(s, t, size, align, at)
            && PoolInv(pool, t, live + [Run(at, size)])
  {
    var at := AlignUp(s[k].base, align);
    var t := Carve(s, k, at, size);
    MultipleOfMultiple(at, align, PAGE_SIZE);
    CarveKeepsSlots(s, k, at, size);
    assert SlotInv(s[k]);
    AllocKeepsPool(pool, s, t, live, size, align, at);
  }

  /** Inserting behind `a + b`. */
  lemma Parted(a: seq<Run>, b: seq<Run>, c: seq<Run>, x: Run)
    ensures var t, n := a + b + c, |a| + |b|;
            t[..n] + [x] + t[n..] == a + b + [x] + c
    ensures a + [] + c == a + c
  {
    var t, n := a + b + c, |a| + |b|;
    assert t[..n] == a + b && t[n..] == c;
  }

  class RegionAllocator {
    const slots: array<Run>
    var len: nat
    /** The regions handed out and not yet returned, and all addresses ever registered. */
    ghost var live: seq<Run>
    ghost var pool: set<int>

    ghost predicate Shape()
      reads this, slots
    {
      slots.Length == CAPACITY && len <= CAPACITY
    }

    ghost function Slots(): seq<Run>
      requires Shape()
      reads this, slots
    {
      slots[..len]
    }

    ghost predicate Valid()
      reads this, slots
    {
      && Shape() && SlotsInv(Slots()) && PoolInv(pool, Slots(), live)
      && forall i :: 0 <= i < |live| ==> SlotInv(live[i])
    }

    constructor ()
      ensures Valid() && fresh(slots) && Slots() == [] && live == [] && pool == {}
    {
      slots := new Run[CAPACITY](_ => Run(0, PAGE_SIZE));
      len := 0;
      live := [];
      pool := {};
      new;
      assert Cover([]) == {};
    }

    method InsertAt(pos: nat, region: Run) returns (ok: bool)
      requires Shape() && pos <= len
      modifies this`len, slots
      ensures Shape()
      ensures ok <==> old(len) < CAPACITY
      ensures ok ==> Slots() == old(Slots())[..pos] + [region] + old(Slots())[pos..]
      ensures !ok ==> len == old(len) && slots[..] == old(slots[..])
    {
      if len >= CAPACITY {
        return false;
      }
      forall i | pos <= i < len {
        slots[i + 1] := slots[i];
      }
      slots[pos] := region;
      len := len + 1;
      ok := true;
    }

    method RemoveAt(pos: nat) returns (region: Run)
      requires Shape() && pos < len
      modifies this`len, slots
      ensures Shape()
      ensures region == old(Slots())[pos]
      ensures Slots() == old(Slots())[..pos] + old(Slots())[pos + 1..]
    {
      region := slots[pos];
      forall i | pos + 1 <= i < len {
        slots[i - 1] := slots[i];
      }
      len := len - 1;
    }

    method MergePair(pos: nat)
      requires Shape() && pos < len
      modifies this`len, slots
      ensures Shape()
      ensures Slots() == MergeRight(old(Slots()), pos)
    {
      if pos + 1 < len {
        var left, right := slots[pos], slots[pos + 1];
        if LeftAdjacent(left, right) {
          slots[pos] := Run(left.base, left.size + right.size);
          var _ := RemoveAt(pos + 1);
        }
      }
    }

    method TryMergeAt(pos: nat)
      requires Shape() && pos < len
      modifies this`len, slots
      ensures Shape()
      ensures Slots() == MergeLeft(MergeRight(old(Slots()), pos), pos)
    {
      MergePair(pos);
      if pos > 0 {
        MergePair(pos - 1);
      }
    }

    /** `partition_point` on the sorted prefix: a binary search. */
    method PartitionPoint(base: int) returns (pos: nat)
      requires Shape() && Maximal(Slots())
      ensures InsertionPoint(Slots(), base, pos)
    {
      ghost var s := Slots();
      var lo, hi := 0, len;
      while lo < hi
        invariant 0 <= lo <= hi <= len
        invariant forall i :: 0 <= i < lo ==> s[i].base < base
        invariant forall i :: hi <= i < |s| ==> base <= s[i].base
      {
        var mid := lo + (hi - lo) / 2;
        assert slots[mid] == s[mid];
        assert forall i :: 0 <= i < mid ==> s[i].End() < s[mid].base;
        assert forall i :: mid < i < |s| ==> s[mid].End() < s[i].base;
        if slots[mid].base < base {
          lo := mid + 1;
        } else {
          hi := mid;
        }
      }
      pos := lo;
    }

    /** Registers a region outside the free set. */
    method AddRegion(region: Run) returns (r: Outcome<()>)
      requires Shape() && SlotsInv(Slots())
      requires 0 <= region.base && 0 < region.size < WORD_LIMIT && region.End() <= WORD_LIMIT
      requires region.Addresses() !! Cover(Slots())
      requires Cover(Slots()) + region.Addresses() != Span(0, WORD_LIMIT)
      modifies this`len, slots
      ensures Shape() && SlotsInv(Slots()) && !r.Panic?
      ensures r.Ok? ==> FreeStep(old(Slots()), Slots(), region)
      ensures r == Err(UnalignedAddress) <==> !PageAligned(region)
      ensures r == Err(TrackerFull) <==> PageAligned(region) && old(len) == CAPACITY
      ensures r.Err? ==> Slots() == old(Slots()) && r.error != OutOfVirtualMemory
      ensures PageAligned(region) ==>
        ((r == Err(TrackerFull) <==> FullAfterMerging(old(Slots()), region))
         <==> !(old(len) == CAPACITY && Touches(old(Slots()), region)))
    {
      FullMeansUntouched(Slots(), region);
      PageIsPowerOfTwo();
      IsAlignedIsDivisible(region.base, PAGE_SIZE);
      if !IsAligned(region.base, PAGE_SIZE) || region.size % PAGE_SIZE != 0 {
        return Err(UnalignedAddress);
      }
      ghost var s := Slots();
      var pos := PartitionPoint(region.base);
      var ok := InsertAt(pos, region);
      if !ok {
        return Err(TrackerFull);
      }
      TryMergeAt(pos);
      assert forall i :: 0 <= i < |s| ==> SlotInv(s[i]);
      InsertThenMergeIsCoalesce(s, pos, region);
      CoalesceKeepsSlots(s, pos, region);
      r := Ok(());
    }

    /** The `find_map` scan: the first slot that fits after alignment padding. */
    method FindFit(size: Word, align: Word) returns (found: bool, k: nat)
      requires Shape() && SlotsInv(Slots()) && !BadRequest(size, align)
      ensures found ==> k < len && RunServes(Slots()[k], size, align)
      ensures found ==> forall i :: 0 <= i < k ==> !RunServes(Slots()[i], size, align)
      ensures !found ==> forall i :: 0 <= i < |Slots()| ==> !RunServes(Slots()[i], size, align)
    {
      k := 0;
      while k < len
        invariant k <= len
        invariant forall i :: 0 <= i < k ==> !RunServes(Slots()[i], size, align)
      {
        assert SlotInv(Slots()[k]) && Slots()[k] == slots[k];
        SlotFitsIsRunServes(slots[k], size, align);
        if SlotFits(slots[k], size, align) {
          return true, k;
        }
        k := k + 1;
      }
      found := false;
    }

    /** Replaces slot `k` by the fragments around the allocated range; false is the failed `expect`. */
    method SplitSlot(k: nat, at: int, size: int) returns (ok: bool)
      requires Shape() && k < len
      requires Slots()[k].base <= at && size > 0 && at + size <= Slots()[k].End()
      modifies this`len, slots
      ensures Shape()
      ensures ok ==> Slots() == Carve(old(Slots()), k, at, size)
      ensures ok <==> |Carve(old(Slots()), k, at, size)| <= CAPACITY
    {
      ghost var s := Slots();
      var slot := RemoveAt(k);
      ok := true;
      ghost var left, right := s[..k], s[k + 1..];
      assert Slots() == left + right;
      var padding := at - slot.base;
      if padding > 0 {
        Parted(left, [], right, Run(slot.base, padding));
        ok := InsertAt(k, Run(slot.base, padding));
      }
      ghost var head := Fragment(slot.base, at);
      assert ok && Slots() == left + head + right;
      var tailSize := slot.size - padding - size;
      if tailSize > 0 {
        Parted(left, head, right, Run(at + size, tailSize));
        ok := InsertAt(k + (if padding > 0 then 1 else 0), Run(at + size, tailSize));
      }
    }

    /** First-fit allocation. */
    method Alloc(size: Word, align: Word) returns (r: Outcome<Run>)
      requires Valid()
      modifies this, slots
      ensures r == Err(UnalignedAddress) <==> BadRequest(size, align)
      ensures r == Err(UnalignedAddress)
        <==> size == 0 || size % 4096 != 0 || align % 4096 != 0 || !exists k: nat :: align == Bits.Pow2(k)
      ensures r == Err(OutOfVirtualMemory)
        <==> !BadRequest(size, align) && forall at :: !Fits(Cover(old(Slots())), size, align, at)
      ensures r.Panic? <==> !BadRequest(size, align) && old(len) == CAPACITY && SplitsInThree(old(Slots()), size, align)
      ensures r.Err? ==> r.error != TrackerFull && Valid() && Slots() == old(Slots()) && live == old(live) && pool == old(pool)
      ensures r.Ok? ==>
        && Valid() && r.value.size == size && SlotInv(r.value)
        && AllocStep(old(Slots()), Slots(), size, align, r.value.base)
        && live == old(live) + [r.value] && pool == old(pool)
    {
      BadRequestIs(size, align);
      if size == 0 || size % PAGE_SIZE != 0 {
        return Err(UnalignedAddress);
      }
      if !IsPowerOfTwo(align) || align % PAGE_SIZE != 0 {
        return Err(UnalignedAddress);
      }
      ghost var s := Slots();
      var found, k := FindFit(size, align);
      assert s == Slots();
      if !found {
        NoRunServesNoFit(s, size, align);
        return Err(OutOfVirtualMemory);
      }
      FitFound(s, k, size, align);
      var at := MaskUp(slots[k].base, align);
      var ok := SplitSlot(k, at, size);
      if !ok {
        return Panic;
      }
      FitTaken(pool, s, live, k, size, align);
      live := live + [Run(at, size)];
      r := Ok(Run(at, size));
    }

    /** Returns a live region to the free list. */
    method Free(ghost k: nat, region: Run) returns (r: Outcome<()>)
      requires Valid() && k < |live| && live[k] == region && pool != Span(0, WORD_LIMIT)
      modifies this, slots
      ensures Valid() && pool == old(pool)
      ensures if old(len) < CAPACITY then r.Ok? else r == Err(TrackerFull)
      ensures r.Ok? ==> FreeStep(old(Slots()), Slots(), region) && live == Without(old(live), k)
      ensures r.Err? ==> Slots() == old(Slots()) && live == old(live)
    {
      ghost var s := Slots();
      RunIsCovered(live, k);
      PoolInWord(pool, s, live);
      r := AddRegion(region);
      if r.Ok? {
        FreeKeepsPool(pool, s, Slots(), live, k);
        live := Without(live, k);
      }
    }

    /** The byte total of the slots; with the live regions it makes up the pool. */
    method FreeBytes() returns (n: int)
      requires Valid()
      ensures n == Total(Slots())
      ensures n + Total(live) == |pool|
    {
      n := 0;
      for i := 0 to len
        invariant n == Total(slots[..i])
      {
        assert slots[..i + 1][..i] == slots[..i];
        n := n + slots[i].size;
      }
      BytesAreConserved(pool, Slots(), live);
    }
  }

  /** A pool with one registered range. */
  method SeededAllocator(base: Word, size: Word) returns (ra: RegionAllocator)
    requires SlotInv(Run(base, size))
    ensures fresh(ra) && fresh(ra.slots) && ra.Valid()
    ensures ra.Slots() == [Run(base, size)] && ra.live == [] && ra.pool == Span(base, base + size)
  {
    ra := new RegionAllocator();
    assert Cover([]) == {};
    assert 0 in Span(0, WORD_LIMIT) && WORD_LIMIT - 1 in Span(0, WORD_LIMIT);
    var r := ra.AddRegion(Run(base, size));
    var one := [Run(base, size)];
    CoverOne(Run(base, size));
    FreeListIsCanonical(ra.Slots(), one);
    ra.pool := Span(base, base + size);
  }

  /** With at most 62 live regions a one-range pool has a slot to spare: no fit can reach the
      failing `expect` in `alloc`, and no `free` finds the tracker full. */
  lemma RoomWhileFewLive(lo: int, hi: int, s: seq<Run>, live: seq<Run>)
    requires SlotsInv(s) && PoolInv(Span(lo, hi), s, live) && |live| <= CAPACITY - 2
    ensures |s| < CAPACITY
  {
    FreeRunsAtMostLivePlusOne(lo, hi, s, live);
  }

  // ---------------------------------------------------------------------------------------
  // Two promises that do not hold at full capacity
  // ---------------------------------------------------------------------------------------

  /** `n` three-page slots with gaps of one page and more. */
  ghost function Comb(n: nat): seq<Run>
  {
    if n == 0 then [] else Comb(n - 1) + [Run((8 * n + 1) * PAGE_SIZE, 3 * PAGE_SIZE)]
  }

  lemma {:induction false} CombIsSlots(n: nat)
    requires n <= CAPACITY
    ensures SlotsInv(Comb(n)) && |Comb(n)| == n
    ensures forall i :: 0 <= i < n ==> Comb(n)[i] == Run((8 * i + 9) * PAGE_SIZE, 3 * PAGE_SIZE)
  {
    hide SlotsInv;
    if n == 0 {
      assert SlotsInv(Comb(0)) by { NoSlots(); }
    } else {
      CombIsSlots(n - 1);
      NextSlot(Comb(n - 1), Run((8 * n + 1) * PAGE_SIZE, 3 * PAGE_SIZE));
    }
  }

  lemma NoSlots()
    ensures SlotsInv([])
  {
  }

  lemma NextSlot(s: seq<Run>, r: Run)
    requires SlotsInv(s) && |s| < CAPACITY && SlotInv(r) && (s != [] ==> s[|s| - 1].End() < r.base)
    ensures SlotsInv(s + [r])
  {
  }

  /** A free address lies right before or right after the region. */
  ghost predicate Touches(s: seq<Run>, r: Run) { r.base - 1 in Cover(s) || r.End() in Cover(s) }

  /** The free set with the region added does not fit the tracker. */
  ghost predicate FullAfterMerging(s: seq<Run>, r: Run)
  {
    forall t :: Maximal(t) && Cover(t) == Cover(s) + r.Addresses() ==> |t| > CAPACITY
  }

  lemma JoinsIsTouch(s: seq<Run>, pos: nat, r: Run)
    requires Maximal(s) && r.size > 0 && r.Addresses() !! Cover(s) && InsertionPoint(s, r.base, pos)
    ensures JoinsLeft(s, pos, r) <==> r.base - 1 in Cover(s)
    ensures JoinsRight(s, pos, r) <==> r.End() in Cover(s)
  {
    InsertedRunSitsInGap(s, pos, r);
    if JoinsLeft(s, pos, r) { Holds(s, pos - 1, r.base - 1); }
    if JoinsRight(s, pos, r) { Holds(s, pos, r.End()); }
    if r.base - 1 in Cover(s) { var i := RunOf(s, r.base - 1); }
    if r.End() in Cover(s) { var i := RunOf(s, r.End()); }
  }

  lemma ManyMaximal(s: seq<Run>, t: seq<Run>, r: Run)
    requires Maximal(t) && Cover(t) == Cover(s) + r.Addresses() && |t| <= CAPACITY
    ensures !FullAfterMerging(s, r)
  {
  }

  /** The documented test: the merged free set is too large exactly when the tracker is full and
      the region touches no free address. */
  lemma FullMeansUntouched(s: seq<Run>, r: Run)
    requires SlotsInv(s) && r.size > 0 && r.Addresses() !! Cover(s)
    ensures FullAfterMerging(s, r) <==> |s| == CAPACITY && !Touches(s, r)
  {
    var pos := PointFor(s, r.base, |s|);
    JoinsIsTouch(s, pos, r);
    CoalesceIsUnion(s, pos, r);
    var t := Coalesce(s, pos, r);
    if |t| <= CAPACITY {
      ManyMaximal(s, t, r);
    } else {
      forall u | Maximal(u) && Cover(u) == Cover(s) + r.Addresses() ensures |u| > CAPACITY {
        FreeListIsCanonical(u, t);
      }
    }
  }

  lemma {:induction false} PointFor(s: seq<Run>, base: int, n: nat) returns (pos: nat)
    requires Maximal(s) && n <= |s| && forall i :: n <= i < |s| ==> base <= s[i].base
    ensures InsertionPoint(s, base, pos)
    decreases n
  {
    if n > 0 && base <= s[n - 1].base {
      pos := PointFor(s, base, n - 1);
    } else {
      pos := n;
      assert forall i :: 0 <= i < n - 1 ==> s[i].End() < s[n - 1].base;
    }
  }

  /** A full tracker rejects a region even where merging it would free a slot: the capacity test
      comes before the merge. The region fills the gap between the first two slots. */
  lemma MergeableYetRejected()
    ensures var s, r := Comb(CAPACITY), Run(12 * PAGE_SIZE, 5 * PAGE_SIZE);
            && SlotsInv(s) && |s| == CAPACITY && PageAligned(r) && r.Addresses() !! Cover(s)
            && InsertionPoint(s, r.base, 1) && |Coalesce(s, 1, r)| < CAPACITY && !FullAfterMerging(s, r)
  {
    hide Cover, FullAfterMerging;
    var n: nat := CAPACITY;
    CombIsSlots(n);
    var s, r := Comb(n), Run(12 * PAGE_SIZE, 5 * PAGE_SIZE);
    assert s[0].End() == r.base && s[1].base == r.End();
    ApartFromAll(s, r);
    NotFullWhenTouched(s, r, 1);
  }

  lemma NotFullWhenTouched(s: seq<Run>, r: Run, k: nat)
    requires SlotsInv(s) && r.size > 0 && r.Addresses() !! Cover(s) && k < |s| && s[k].base == r.End()
    ensures !FullAfterMerging(s, r)
  {
    hide Cover, FullAfterMerging;
    Holds(s, k, r.End());
    FullMeansUntouched(s, r);
  }

  lemma ApartFromAll(s: seq<Run>, r: Run)
    requires |s| == CAPACITY && forall i :: 0 <= i < |s| ==> s[i] == Run((8 * i + 9) * PAGE_SIZE, 3 * PAGE_SIZE)
    requires r == Run(12 * PAGE_SIZE, 5 * PAGE_SIZE)
    ensures r.Addresses() !! Cover(s) && InsertionPoint(s, r.base, 1)
  {
    forall i | 0 <= i < |s| ensures Clear(s[i], r) {}
    ApartFrom(s, r);
  }

  /** The slot freed by the removal is not always enough: with all slots in use, a request served
      from the middle of a slot needs one slot more than there are. */
  lemma SplitAtFullCapacity()
    ensures var s := Comb(CAPACITY);
            SlotsInv(s) && |s| == CAPACITY && !BadRequest(PAGE_SIZE, 2 * PAGE_SIZE) && SplitsInThree(s, PAGE_SIZE, 2 * PAGE_SIZE)
  {
    var n: nat, size: Word, align: Word := CAPACITY, PAGE_SIZE, 2 * PAGE_SIZE;
    CombIsSlots(n);
    var s := Comb(n);
    PageIsPowerOfTwo();
    assert IsPowerOfTwo(align);
    assert AlignUp(s[0].base, align) == 10 * PAGE_SIZE;
    FirstFitIsLowest(s, 0, size, align);
    SplitIsAtTheFit(s, 0, size, align);
  }
}
