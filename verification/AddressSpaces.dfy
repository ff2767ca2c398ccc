/** Address spaces: region pools, page tables and frames tied together, with rollback. */
module AddressSpaces {
  import opened Addr
  import opened Batch
  import opened Demand
  import opened Entry
  import opened Frames
  import opened FreeRuns
  import opened Mapper
  import opened Ownership
  import opened PageTables
  import opened PhysMem
  import opened Steps
  import opened Pools
  import opened Region
  import opened Results

  const HEAP_START := 0xffff_c000_0000_0000
  const HEAP_END := 0xffff_d000_0000_0000
  const KERNEL_VM_START := 0xffff_d000_0000_0000
  const KERNEL_VM_END := 0xffff_e000_0000_0000

  datatype AllocKind = HeapKind | KernelVm

  datatype SpaceError = RegionFailed(region: RegionError) | MapRejected(mapping: MapError)
                      | UnmapRejected(unmapping: UnmapError) | OutOfPhysicalMemory

  /** Why the kernel stopped: no slot for a region, or no frame for a page table. */
  datatype Cause = SlotsExhausted | FramesExhausted

  datatype SpaceResult<T> = Done(value: T) | Failed(error: SpaceError) | Stopped(cause: Cause)

  ghost predicate NoRoom(slots: seq<Run>, size: int, align: int)
  {
    align > 0 && forall at :: !Fits(Cover(slots), size, align, at)
  }

  lemma GoodAlign(size: Word, align: Word)
    ensures !BadRequest(size, align) ==> align > 0 && size >= PAGE_SIZE
  {}

  ghost predicate IsLowest(slots: seq<Run>, size: int, align: int, at: int)
  {
    align > 0 && LowestFit(Cover(slots), size, align, at)
  }

  /** Taking the lowest fit needs more slots than there are. */
  ghost predicate Overflows(slots: seq<Run>, size: int, align: int)
  {
    exists at :: IsLowest(slots, size, align, at) && SlotsAfter(slots, size, at) > CAPACITY
  }

  lemma OverflowIsSplit(slots: seq<Run>, size: int, align: int)
    requires |slots| <= CAPACITY && align > 0
    ensures Overflows(slots, size, align) <==> |slots| == CAPACITY && SplitsInThree(slots, size, align)
  {
    hide SlotsAfter, LowestFit;
    forall at | LowestFit(Cover(slots), size, align, at)
      ensures |slots| == CAPACITY && SplitsInThree(slots, size, align) <==> SlotsAfter(slots, size, at) > CAPACITY
    {
      SplitIsOverflow(slots, size, align, at);
    }
    if SplitsInThree(slots, size, align) {
      var at :| LowestFit(Cover(slots), size, align, at) && at - 1 in Cover(slots) && at + size in Cover(slots);
      assert IsLowest(slots, size, align, at);
    }
  }

  /** The lowest fit, if there is a fit. */
  lemma LowestOf(slots: seq<Run>, size: int, align: int) returns (at: int)
    requires Maximal(slots)
    ensures size > 0 && align > 0 && !NoRoom(slots, size, align) ==> IsLowest(slots, size, align, at)
    ensures forall other :: IsLowest(slots, size, align, other) && size > 0 ==> other == at
    ensures size > 0 ==> (Overflows(slots, size, align) <==> IsLowest(slots, size, align, at) && SlotsAfter(slots, size, at) > CAPACITY)
  {
    hide SlotsAfter;
    at := 0;
    if size > 0 && align > 0 && !NoRoom(slots, size, align) {
      at := LowestServed(slots, size, align, 0);
    }
  }

  lemma {:induction false} LowestServed(slots: seq<Run>, size: int, align: int, k: nat) returns (at: int)
    requires Maximal(slots) && size > 0 && align > 0 && !NoRoom(slots, size, align) && k <= |slots|
    requires forall i :: 0 <= i < k ==> !RunServes(slots[i], size, align)
    ensures IsLowest(slots, size, align, at)
    decreases |slots| - k
  {
    hide NoRoom, RunServes;
    if k == |slots| {
      NoRoomWhenNoneServes(slots, size, align);
    } else if RunServes(slots[k], size, align) {
      at := AlignUp(slots[k].base, align);
      FirstFitIsLowest(slots, k, size, align);
    } else {
      at := LowestServed(slots, size, align, k + 1);
    }
  }

  lemma NoRoomWhenNoneServes(slots: seq<Run>, size: int, align: int)
    requires Maximal(slots) && size > 0 && align > 0
    requires forall i :: 0 <= i < |slots| ==> !RunServes(slots[i], size, align)
    ensures NoRoom(slots, size, align)
  {
    NoRunServesNoFit(slots, size, align);
  }

  lemma Taken(slots: seq<Run>, slots': seq<Run>, size: int, align: int, at: int)
    requires Maximal(slots) && AllocStep(slots, slots', size, align, at)
    ensures IsLowest(slots, size, align, at) && |slots'| == SlotsAfter(slots, size, at) && !NoRoom(slots, size, align)
  {
    SlotsAfterTake(slots, slots', size, align, at);
  }

  /** `[lo, hi)` lies in the range of its kind. */
  predicate InPool(kind: AllocKind, lo: int, hi: int)
  {
    match kind
    case HeapKind => 0xffff_c000_0000_0000 <= lo && hi <= 0xffff_d000_0000_0000
    case KernelVm => 0xffff_d000_0000_0000 <= lo && hi <= 0xffff_e000_0000_0000
  }

  /** The outcomes of backing a reserved region with `used` slots then in use, each with its condition
      on the state before. */
  ghost predicate BackedAs(r: SpaceResult<Run>, v: View, region: Run, used: int)
    requires region.size >= 0
  {
    var n: nat := region.size / PAGE_SIZE;
    && (r == Done(region) || r == Failed(OutOfPhysicalMemory) || r == Failed(MapRejected(AlreadyMapped)) || r.Stopped?)
    && (r == Done(region) <==> Backable(v, region.base, n))
    && (r == Failed(OutOfPhysicalMemory) <==> used < CAPACITY && RunsDry(v, region.base, n))
    && (r == Failed(MapRejected(AlreadyMapped)) <==> used < CAPACITY && MeetsMapped(v, region.base, n))
    && (r == Stopped(FramesExhausted) <==> LacksTable(v, region.base, n))
    && (r == Stopped(SlotsExhausted) <==> used >= CAPACITY && (RunsDry(v, region.base, n) || MeetsMapped(v, region.base, n)))
  }

  /** The outcomes of `alloc_and_map`, each with its condition on the state before the call; `at` is
      the lowest fit. */
  ghost predicate Verdict(r: SpaceResult<Run>, v: View, slots: seq<Run>, size: Word, align: Word, at: int)
  {
    && (r == Failed(RegionFailed(RegionError.UnalignedAddress)) <==> BadRequest(size, align))
    && (r == Failed(RegionFailed(OutOfVirtualMemory)) <==> !BadRequest(size, align) && NoRoom(slots, size, align))
    && (!BadRequest(size, align) && !NoRoom(slots, size, align) ==>
          && IsLowest(slots, size, align, at)
          && (SlotsAfter(slots, size, at) > CAPACITY ==> r == Stopped(SlotsExhausted))
          && (SlotsAfter(slots, size, at) <= CAPACITY ==> BackedAs(r, v, Run(at, size), SlotsAfter(slots, size, at))))
  }

  lemma SlotsBounded(ra: RegionAllocator)
    requires ra.Valid()
    ensures ra.Shape() && |ra.Slots()| <= CAPACITY
  {}

  lemma FateIsBackedAs(v: View, region: Run, used: int, r: SpaceResult<Run>, fate: LoopResult)
    requires region.size >= 0 && used <= CAPACITY && fate == Fate(v, region.base, 0, region.size / PAGE_SIZE).0
    requires fate.AllMapped? ==> r == Done(region)
    requires fate.LoopStopped? ==> r == Stopped(FramesExhausted)
    requires fate.NoFrame? || fate.Rejected? ==> (used == CAPACITY ==> r == Stopped(SlotsExhausted))
    requires fate.NoFrame? && used < CAPACITY ==> r == Failed(OutOfPhysicalMemory)
    requires fate.Rejected? && used < CAPACITY ==> r == Failed(MapRejected(fate.error))
    ensures BackedAs(r, v, region, used)
  {
    hide Fate, Backable, RunsDry, MeetsMapped, LacksTable;
    var n := region.size / PAGE_SIZE;
    FateIsBackable(v, region.base, n);
    WhenLoopStops(v, region.base, n);
    WhenNoFrame(v, region.base, n);
    WhenRejected(v, region.base, n);
  }

  lemma AllocatorFacts(a: BitmapAllocator)
    requires a.Valid()
    ensures |a.mem.pages| == FRAME_COUNT && Distinct(a.stack) && forall f :: f in a.stack ==> f !in a.out
    ensures 0 <= a.freeListHead < WORD_LIMIT
  {}

  /** Takes a frame from the allocator. */
  method TakeFrame(m: PageTableMapper) returns (r: Option<Frame>)
    requires m.Valid()
    modifies m.alloc, m.alloc.bitmap
    ensures m.Valid() && (r.None? <==> old(m.Now()).stack == [])
    ensures r.None? ==> m.Now() == old(m.Now())
    ensures r.Some? ==> TakeStep(old(m.Now()), m.Now()) && r.value == old(m.Now()).stack[0]
    ensures r.Some? ==> Reach(Local(old(m.Now()), {}), Local(m.Now(), {r.value}))
  {
    hide FrameInv, TreeInv, Reach;
    AllocatorFacts(m.alloc);
    r := m.alloc.Allocate();
    if r.Some? {
      ReachOne(Local(old(m.Now()), {}), PopFree);
      assert {} + {r.value} == {r.value};
    }
  }

  /** Returns a frame the space does not hold. */
  method ReleaseFrame(m: PageTableMapper, f: Frame)
    requires m.Valid() && Owns(m.alloc.out, m.space) && f in m.alloc.out && f !in Owned(m.space)
    modifies m.alloc, m.alloc.mem, m.alloc.bitmap
    ensures m.Valid() && GiveStep(old(m.Now()), m.Now(), f)
    ensures Reach(Local(old(m.Now()), {f}), Local(m.Now(), {}))
  {
    hide FrameInv, TreeInv, Owns, Owned, Reach;
    AllocatorFacts(m.alloc);
    ghost var v := m.Now();
    ReachOne(Local(v, {f}), PushFree(f, m.alloc.freeListHead));
    assert {f} - {f} == {};
    var ok := m.alloc.Deallocate(f);
    assert GiveStep(v, m.Now(), f);
    ReleaseKeepsTables(v, m.Now(), f);
  }

  lemma ReleaseKeepsTables(v: View, v': View, f: Frame)
    requires StackOk(v) && Owns(v.out, v.space) && GiveStep(v, v', f) && f !in Owned(v.space) && TreeInv(v.pages, v.space)
    ensures TreeInv(v'.pages, v'.space) && TableFrames(v'.space) <= v'.out
  {
    GiveMovesFrame(v, v', f);
  }

  /** Mapping a page keeps every translation that was there. */
  lemma MapCaches(v: View, v': View, virt: Word, l: Leaf)
    requires MapStep(v, v', virt, l)
    ensures Cached(v.space) <= Cached(v'.space)
  {
    hide Grown;
    forall e | e in Cached(v.space) ensures e in Cached(v'.space) {
      var n :| n in v.space.leaves && e == (n, v.space.leaves[n]);
      assert v'.space.leaves[n] == v.space.leaves[n];
    }
  }

  /** Unmapping a page adds no translation. */
  lemma UnmapCaches(v: View, v': View, virt: Word)
    requires UnmapStep(v, v', virt)
    ensures Cached(v'.space) <= Cached(v.space)
  {
    forall e | e in Cached(v'.space) ensures e in Cached(v.space) {
      var n :| n in v'.space.leaves && e == (n, v'.space.leaves[n]);
      assert v.space.leaves[n] == v'.space.leaves[n];
    }
  }

  lemma ReachBoth(u: View, v: View, w: View, f: Frame)
    requires Reach(Local(u, {}), Local(v, {f})) && Reach(Local(v, {f}), Local(w, {}))
    ensures Worked(u, w)
  {
    hide Reach;
    ReachTrans(Local(u, {}), Local(v, {f}), Local(w, {}));
  }

  class AddressSpace {
    const mapper: PageTableMapper
    const heapVa: RegionAllocator
    const kernelVmVa: RegionAllocator
    /** Every translation the hardware may have cached. */
    ghost var tlb: set<(Node, Leaf)>

    ghost predicate PoolsValid()
      reads heapVa, heapVa.slots, kernelVmVa, kernelVmVa.slots
    {
      && heapVa != kernelVmVa && heapVa.slots != kernelVmVa.slots
      && heapVa.Valid() && heapVa.pool == Span(HEAP_START, HEAP_END)
      && kernelVmVa.Valid() && kernelVmVa.pool == Span(KERNEL_VM_START, KERNEL_VM_END)
    }

    ghost predicate TablesValid()
      reads mapper, mapper.alloc, mapper.alloc.mem, mapper.alloc.bitmap
    {
      mapper.Valid() && Owns(mapper.alloc.out, mapper.space)
    }

    ghost predicate Valid()
      reads mapper, mapper.alloc, mapper.alloc.mem, mapper.alloc.bitmap, heapVa, heapVa.slots, kernelVmVa, kernelVmVa.slots
    {
      PoolsValid() && TablesValid()
    }

    ghost function Now(): View
      reads mapper, mapper.alloc, mapper.alloc.mem
    {
      mapper.Now()
    }

    function PoolFor(kind: AllocKind): RegionAllocator
    {
      match kind
      case HeapKind => heapVa
      case KernelVm => kernelVmVa
    }

    /** A new address space over a freshly cleared root table. */
    constructor (alloc: BitmapAllocator, root: Frame)
      requires alloc.Valid() && root in alloc.out
      modifies alloc.mem
      ensures Valid() && mapper.alloc == alloc && fresh(mapper) && fresh(heapVa) && fresh(kernelVmVa)
      ensures fresh(heapVa.slots) && fresh(kernelVmVa.slots)
      ensures mapper.space == FreshSpace(root) && tlb == {}
      ensures heapVa.live == [] && kernelVmVa.live == []
      ensures heapVa.Slots() == [Run(HEAP_START, HEAP_END - HEAP_START)]
      ensures kernelVmVa.Slots() == [Run(KERNEL_VM_START, KERNEL_VM_END - KERNEL_VM_START)]
      ensures alloc.mem.pages == old(alloc.mem.pages)[root := ZeroPage()]
    {
      var heap := SeededAllocator(HEAP_START, HEAP_END - HEAP_START);
      var vm := SeededAllocator(KERNEL_VM_START, KERNEL_VM_END - KERNEL_VM_START);
      var m := new PageTableMapper(alloc, root);
      mapper, heapVa, kernelVmVa, tlb := m, heap, vm, {};
    }

    lemma SoundNow()
      requires TablesValid()
      ensures Sound(Now())
    {
      AllocatorFacts(mapper.alloc);
    }

    /** Live regions lie in the range of their kind, and regions never overlap, whatever their kinds. */
    lemma LiveRegionsApart(a: AllocKind, i: nat, b: AllocKind, j: nat)
      requires PoolsValid() && i < |PoolFor(a).live| && j < |PoolFor(b).live| && (a != b || i != j)
      ensures InPool(a, PoolFor(a).live[i].base, PoolFor(a).live[i].End())
      ensures Clear(PoolFor(a).live[i], PoolFor(b).live[j])
    {
      hide Maximal, SlotsInv, Cover;
      RegionInPool(PoolStart(a), PoolEnd(a), PoolFor(a).Slots(), PoolFor(a).live, i);
      RegionInPool(PoolStart(b), PoolEnd(b), PoolFor(b).Slots(), PoolFor(b).live, j);
      if a == b { assert Disjoint(PoolFor(a).live); }
    }

    /** One turn of the loop: a frame from the allocator, mapped at page `i`, or given back. */
    method MapOne(base: int, n: nat, i: nat, flags: PageFlags, ghost v0: View) returns (r: LoopResult)
      requires TablesValid() && GoodRange(base, n) && i < n && Partly(v0, Now(), base, 0, i, flags)
      requires Spent(v0, Now(), base, i)
      modifies mapper, mapper.alloc, mapper.alloc.mem, mapper.alloc.bitmap
      ensures r == FateAt(v0, base, i)
      ensures r.AllMapped? ==>
        && TablesValid() && Partly(v0, Now(), base, 0, i + 1, flags) && Spent(v0, Now(), base, i + 1)
        && Cached(old(mapper.space)) <= Cached(mapper.space)
      ensures r.NoFrame? || r.Rejected? ==>
        TablesValid() && Partly(v0, Now(), base, 0, i, flags) && mapper.space == old(mapper.space)
      ensures !r.LoopStopped? ==> Worked(old(Now()), Now())
    {
      hide FrameInv, TreeInv, Owns, Grown, PageNode, IsCanonical, Evolved, LeavesPlus, Spent, Need, Path, Missing,
           Reach, Worked;
      ghost var v := Now();
      WorkedNothing(v);
      RangePage(base, n, i);
      Turn(v0, v, base, n, i, flags);
      var frame := TakeFrame(mapper);
      if frame.None? {
        return NoFrame;
      }
      ghost var v1 := Now();
      TakeMovesFrame(v, v1);
      var result := mapper.Map(PageAt(base, i), frame.value, flags);
      match result
      case MapPanic => return LoopStopped;
      case Mapped =>
        MapNextPage(v0, v, v1, Now(), base, i, flags);
        MapCaches(v1, Now(), PageAt(base, i), Leaf(frame.value, flags));
        SpentNext(v0, v, v1, Now(), base, i, Leaf(frame.value, flags));
        ReachBoth(v, v1, Now(), frame.value);
        return AllMapped;
      case MapFailed(f, e) =>
        ReleaseFrame(mapper, f);
        TakeThenGiveKeeps(v0, v, v1, Now(), base, i, flags);
        ReachBoth(v, v1, Now(), frame.value);
        return Rejected(e);
    }

    /** Backs the pages of a range one by one, ignoring the flush of each. */
    method MapPages(base: int, n: nat, flags: PageFlags) returns (r: LoopResult, done: nat)
      requires TablesValid() && GoodRange(base, n)
      modifies this`tlb, mapper, mapper.alloc, mapper.alloc.mem, mapper.alloc.bitmap
      ensures (r, done) == Fate(old(Now()), base, 0, n)
      ensures done <= n && (r.AllMapped? ==> done == n)
      ensures !r.LoopStopped? ==>
        && TablesValid() && Partly(old(Now()), Now(), base, 0, done, flags) && Worked(old(Now()), Now())
        && tlb == old(tlb) + Cached(mapper.space)
    {
      hide FrameInv, TreeInv, Owns, Partly, Sound, Spent, Cached, FateAt, Worked;
      SoundNow();
      ghost var v0 := Now();
      PartlyAtStart(v0, base, flags);
      SpentAtStart(v0, base);
      WorkedNothing(v0);
      tlb := tlb + Cached(mapper.space);
      done := 0;
      while done < n
        invariant done <= n && TablesValid() && Partly(v0, Now(), base, 0, done, flags) && Spent(v0, Now(), base, done)
        invariant tlb == old(tlb) + Cached(mapper.space) && Worked(v0, Now())
        invariant Fate(v0, base, 0, n) == Fate(v0, base, done, n)
      {
        ghost var v := Now();
        var step := MapOne(base, n, done, flags, v0);
        if !step.LoopStopped? {
          WorkedTrans(v0, v, Now());
        }
        if !step.AllMapped? {
          return step, done;
        }
        tlb := tlb + Cached(mapper.space);
        done := done + 1;
      }
      r := AllMapped;
    }

    /** Takes the first `count` pages of a range away again; the `expect` on each unmap holds. */
    method RollbackRange(base: int, count: nat, flags: PageFlags, ghost v0: View)
      requires TablesValid() && GoodRange(base, count) && Partly(v0, Now(), base, 0, count, flags)
      requires Cached(mapper.space) <= tlb
      modifies this`tlb, mapper, mapper.alloc, mapper.alloc.mem, mapper.alloc.bitmap
      ensures TablesValid() && Partly(v0, Now(), base, count, count, flags) && Worked(old(Now()), Now())
      ensures tlb == old(tlb)
    {
      hide FrameInv, TreeInv, Owns, PageNode, IsCanonical, Evolved, Reach, Worked;
      WorkedNothing(Now());
      for i := 0 to count
        invariant TablesValid() && Partly(v0, Now(), base, i, count, flags) && Worked(old(Now()), Now())
        invariant tlb == old(tlb) && Cached(mapper.space) <= tlb
      {
        ghost var v := Now();
        RangePage(base, count, i);
        assert Batch.NodeAt(base, i) in Nodes(base, i, count);
        var r := mapper.Unmap(PageAt(base, i));
        ghost var v1 := Now();
        UnmapMovesFrame(v, v1, PageAt(base, i));
        ReleaseFrame(mapper, r.frame);
        UnmapFirstPage(v0, v, v1, Now(), base, i, count, flags);
        UnmapCaches(v, v1, PageAt(base, i));
        ReachBoth(v, v1, Now(), r.frame);
        WorkedTrans(old(Now()), v, Now());
        tlb := tlb + Cached(mapper.space);
      }
    }

    /** Invalidates every page of a range; the hardware may reload at any time. */
    method FlushRange(base: int, count: nat)
      modifies this`tlb
      ensures forall e :: e in tlb && e.0 in Nodes(base, 0, count) ==> e in Cached(mapper.space)
      ensures tlb <= old(tlb) + Cached(mapper.space)
    {
      hide Batch.NodeAt, Cached;
      assert Nodes(base, 0, 0) == {};
      for i := 0 to count
        invariant forall e :: e in tlb && e.0 in Nodes(base, 0, i) ==> e in Cached(mapper.space)
        invariant tlb <= old(tlb) + Cached(mapper.space)
      {
        NodesSnoc(base, 0, i);
        tlb := Flushed(tlb, mapper.space, Batch.NodeAt(base, i));
      }
    }

    /** Unmaps what is mapped of a range and frees the frames, ignoring the flush of each page. */
    method UnmapPages(base: int, n: nat) returns (firstErr: Option<SpaceError>)
      requires TablesValid() && GoodRange(base, n)
      modifies this`tlb, mapper, mapper.alloc, mapper.alloc.mem, mapper.alloc.bitmap
      ensures TablesValid() && Shrunk(old(Now()), Now(), base, n) && Worked(old(Now()), Now())
      ensures firstErr == if Nodes(base, 0, n) <= old(mapper.space).leaves.Keys then None else Some(UnmapRejected(NotMapped))
      ensures tlb == old(tlb) + Cached(old(mapper.space))
    {
      hide FrameInv, TreeInv, Owns, PageNode, IsCanonical, Shrunk, Worked;
      SoundNow();
      ghost var v0 := Now();
      WorkedNothing(v0);
      ShrunkAtStart(v0, base);
      firstErr := None;
      tlb := tlb + Cached(mapper.space);
      assert Nodes(base, 0, 0) == {};
      for i := 0 to n
        invariant TablesValid() && Shrunk(v0, Now(), base, i) && Worked(v0, Now())
        invariant firstErr == if Nodes(base, 0, i) <= v0.space.leaves.Keys then None else Some(UnmapRejected(NotMapped))
        invariant tlb == old(tlb) + Cached(v0.space) && Cached(mapper.space) <= Cached(v0.space)
      {
        NodesSnoc(base, 0, i);
        ghost var v := Now();
        NotYetReached(v0, v, base, n, i);
        var mapped := UnmapOne(base, n, i, v0);
        WorkedTrans(v0, v, Now());
        tlb := tlb + Cached(mapper.space);
        if !mapped && firstErr.None? {
          firstErr := Some(UnmapRejected(NotMapped));
        }
      }
    }

    /** One turn of the loop of `unmap_and_dealloc`. */
    method UnmapOne(base: int, n: nat, i: nat, ghost v0: View) returns (mapped: bool)
      requires TablesValid() && GoodRange(base, n) && i < n && Shrunk(v0, Now(), base, i)
      modifies mapper, mapper.alloc, mapper.alloc.mem, mapper.alloc.bitmap
      ensures TablesValid() && Shrunk(v0, Now(), base, i + 1) && Worked(old(Now()), Now())
      ensures mapped <==> Batch.NodeAt(base, i) in old(mapper.space).leaves
      ensures Cached(mapper.space) <= Cached(old(mapper.space))
    {
      hide FrameInv, TreeInv, Owns, PageNode, IsCanonical, Nodes, DonatedFrames, Reach, Worked;
      ghost var v := Now();
      WorkedNothing(v);
      RangePage(base, n, i);
      var r := mapper.Unmap(PageAt(base, i));
      if r.UnmapFailed? {
        SkipNextPage(v0, v, base, i);
        return false;
      }
      ghost var v1 := Now();
      UnmapMovesFrame(v, v1, PageAt(base, i));
      ReleaseFrame(mapper, r.frame);
      ShrinkNextPage(v0, v, v1, Now(), base, i);
      ReachBoth(v, v1, Now(), r.frame);
      UnmapCaches(v, v1, PageAt(base, i));
      mapped := true;
    }

    /** Reserves a range in a pool. */
    method AllocVirt(size: Word, align: Word, kind: AllocKind) returns (r: SpaceResult<Run>)
      requires PoolsValid()
      modifies PoolFor(kind), PoolFor(kind).slots
      ensures !r.Stopped? ==> PoolsValid()
      ensures r.Stopped? ==> r.cause == SlotsExhausted && |old(PoolFor(kind).live)| > CAPACITY - 2
      ensures r.Stopped? <==> !BadRequest(size, align) && Overflows(old(PoolFor(kind).Slots()), size, align)
      ensures r == Failed(RegionFailed(RegionError.UnalignedAddress)) <==> BadRequest(size, align)
      ensures r == Failed(RegionFailed(OutOfVirtualMemory)) <==> !BadRequest(size, align) && NoRoom(old(PoolFor(kind).Slots()), size, align)
      ensures r.Failed? ==>
        && r.error.RegionFailed? && r.error.region != TrackerFull
        && PoolFor(kind).Slots() == old(PoolFor(kind).Slots()) && PoolFor(kind).live == old(PoolFor(kind).live)
      ensures r.Done? ==>
        && AllocStep(old(PoolFor(kind).Slots()), PoolFor(kind).Slots(), size, align, r.value.base)
        && r.value.size == size && size >= PAGE_SIZE && GoodRange(r.value.base, size / PAGE_SIZE)
        && InPool(kind, r.value.base, r.value.base + size)
        && PoolFor(kind).live == old(PoolFor(kind).live) + [r.value]
    {
      hide PoolInv, Maximal, AllocStep, IsPowerOfTwo, Overflows, SplitsInThree;
      GoodAlign(size, align);
      var pool := PoolFor(kind);
      ghost var lo, hi := PoolStart(kind), PoolEnd(kind);
      ghost var s, live := pool.Slots(), pool.live;
      if !BadRequest(size, align) { OverflowIsSplit(s, size, align); }
      var region := pool.Alloc(size, align);
      match region
      case Panic =>
        if |live| <= CAPACITY - 2 { RoomWhileFewLive(lo, hi, s, live); }
        return Stopped(SlotsExhausted);
      case Err(e) => return Failed(RegionFailed(e));
      case Ok(value) =>
        RegionInPool(lo, hi, pool.Slots(), pool.live, |live|);
        return Done(value);
    }

    /** Gives a reserved range back to its pool; false is `TrackerFull`. */
    method FreeVirt(region: Run, kind: AllocKind, ghost k: nat) returns (ok: bool)
      requires PoolsValid() && k < |PoolFor(kind).live| && PoolFor(kind).live[k] == region
      modifies PoolFor(kind), PoolFor(kind).slots
      ensures PoolsValid()
      ensures !ok <==> |old(PoolFor(kind).Slots())| == CAPACITY
      ensures !ok ==> |old(PoolFor(kind).live)| > CAPACITY - 2
      ensures ok ==>
        && FreeStep(old(PoolFor(kind).Slots()), PoolFor(kind).Slots(), region)
        && PoolFor(kind).live == Without(old(PoolFor(kind).live), k)
    {
      hide PoolInv, Maximal, FreeStep, SlotsInv;
      var pool := PoolFor(kind);
      ghost var lo, hi := PoolStart(kind), PoolEnd(kind);
      if |pool.live| <= CAPACITY - 2 { RoomWhileFewLive(lo, hi, pool.Slots(), pool.live); }
      NotWholeSpace(lo, hi);
      var r := pool.Free(k, region);
      ok := r.Ok?;
    }

    /** Reserves a range and backs every page with a fresh frame, or leaves everything as it was. */
    method AllocAndMap(size: Word, align: Word, flags: PageFlags, kind: AllocKind)
      returns (r: SpaceResult<Run>, ghost at: int)
      requires Valid()
      modifies this`tlb, mapper, mapper.alloc, mapper.alloc.mem, mapper.alloc.bitmap, PoolFor(kind), PoolFor(kind).slots
      ensures Verdict(r, old(Now()), old(PoolFor(kind).Slots()), size, align, at)
      ensures !r.Stopped? ==> Valid() && Worked(old(Now()), Now())
      ensures r == Stopped(SlotsExhausted) ==> |old(PoolFor(kind).live)| > CAPACITY - 3
      ensures r.Failed? ==>
        && PoolFor(kind).Slots() == old(PoolFor(kind).Slots()) && PoolFor(kind).live == old(PoolFor(kind).live)
        && mapper.space.leaves == old(mapper.space).leaves && Evolved(old(Now()), Now())
        && mapper.alloc.out == old(mapper.alloc.out) + TableFrames(mapper.space)
      ensures r.Failed? && r.error.RegionFailed? ==> Now() == old(Now()) && tlb == old(tlb)
      ensures r.Failed? && !r.error.RegionFailed? && Coherent(old(tlb), old(mapper.space)) ==>
        (Coherent(tlb, mapper.space) <==> old(mapper.alloc.stack) == [] || Batch.NodeAt(at, 0) in old(mapper.space).leaves)
      ensures r.Done? ==>
        && AllocStep(old(PoolFor(kind).Slots()), PoolFor(kind).Slots(), size, align, at)
        && PoolFor(kind).live == old(PoolFor(kind).live) + [r.value] && InPool(kind, at, at + size)
        && GoodRange(at, size / PAGE_SIZE) && Partly(old(Now()), Now(), at, 0, size / PAGE_SIZE, flags)
        && RangeCoherent(tlb, mapper.space, at, size / PAGE_SIZE)
        && tlb <= old(tlb) + Cached(mapper.space)
    {
      hide FrameInv, TreeInv, Owns, Evolved, Partly, Sound, PoolInv, Maximal, AllocStep, Coherent, RangeCoherent, Worked,
           Cached, BadRequest, NoRoom, IsLowest, BackedAs, Batch.NodeAt, TableFrames, GoodRange, SlotsAfter, Overflows;
      SoundNow();
      EvolvedFromStart(Now());
      WorkedNothing(Now());
      ghost var slots, live := PoolFor(kind).Slots(), PoolFor(kind).live;
      GoodAlign(size, align);
      at := LowestOf(slots, size, align);
      r := AllocVirt(size, align, kind);
      if r.Done? {
        at := r.value.base;
        Taken(slots, PoolFor(kind).Slots(), size, align, at);
        r := Back(r.value, flags, kind, slots, live, align);
      }
    }

    /** Backs a reserved range with fresh frames, or unmaps what was mapped and gives it back. */
    method Back(region: Run, flags: PageFlags, kind: AllocKind, ghost slots: seq<Run>, ghost live: seq<Run>, ghost align: int)
      returns (r: SpaceResult<Run>)
      requires Valid() && GoodRange(region.base, region.size / PAGE_SIZE) && region.size >= PAGE_SIZE
      requires PoolFor(kind).live == live + [region] && Maximal(slots)
      requires AllocStep(slots, PoolFor(kind).Slots(), region.size, align, region.base)
      modifies this`tlb, mapper, mapper.alloc, mapper.alloc.mem, mapper.alloc.bitmap, PoolFor(kind), PoolFor(kind).slots
      ensures BackedAs(r, old(Now()), region, |old(PoolFor(kind).Slots())|)
      ensures (r.Done? ==> r.value == region) && (r.Failed? ==> !r.error.RegionFailed?)
      ensures !r.Stopped? ==> Valid() && Worked(old(Now()), Now())
      ensures r == Stopped(SlotsExhausted) ==> |live| > CAPACITY - 3
      ensures r.Failed? ==>
        && PoolFor(kind).Slots() == slots && PoolFor(kind).live == live
        && mapper.space.leaves == old(mapper.space).leaves && Evolved(old(Now()), Now())
        && mapper.alloc.out == old(mapper.alloc.out) + TableFrames(mapper.space)
      ensures r.Failed? && Coherent(old(tlb), old(mapper.space)) ==>
        (Coherent(tlb, mapper.space)
         <==> old(mapper.alloc.stack) == [] || Batch.NodeAt(region.base, 0) in old(mapper.space).leaves)
      ensures r.Done? ==>
        && PoolFor(kind).Slots() == old(PoolFor(kind).Slots()) && PoolFor(kind).live == live + [region]
        && Partly(old(Now()), Now(), region.base, 0, region.size / PAGE_SIZE, flags)
        && RangeCoherent(tlb, mapper.space, region.base, region.size / PAGE_SIZE)
        && tlb <= old(tlb) + Cached(mapper.space)
    {
      hide FrameInv, TreeInv, Owns, Evolved, LeavesPlus, PoolInv, Maximal, AllocStep, FreeStep, Cached, Nodes,
           Fate, Batch.NodeAt, Sound, Partly, Coherent, Worked, BackedAs, RegionAllocator.Valid;
      SoundNow();
      SlotsBounded(PoolFor(kind));
      ghost var used := |PoolFor(kind).Slots()|;
      ghost var v0 := Now();
      var n := region.size / PAGE_SIZE;
      var loop, mapped := MapPages(region.base, n, flags);
      if loop.LoopStopped? {
        r := Stopped(FramesExhausted);
        FateIsBackedAs(v0, region, used, r, loop);
        return;
      }
      if loop.AllMapped? {
        FlushRange(region.base, n);
        r := Done(region);
        FateIsBackedAs(v0, region, used, r, loop);
        return;
      }
      ghost var peak := Now();
      var ok := Undo(region, kind, mapped, flags, v0, slots, live, align);
      if !ok {
        r := Stopped(SlotsExhausted);
        FateIsBackedAs(v0, region, used, r, loop);
        return;
      }
      WorkedTrans(v0, peak, Now());
      StaleWhenRolledBack(old(tlb), v0, peak, mapper.space, region.base, n, flags);
      r := Failed(if loop.NoFrame? then OutOfPhysicalMemory else MapRejected(loop.error));
      FateIsBackedAs(v0, region, used, r, loop);
    }

    /** The failure path: unmaps what was mapped and gives the range back; false is a failed `expect`. */
    method Undo(region: Run, kind: AllocKind, mapped: nat, flags: PageFlags,
                ghost v0: View, ghost slots: seq<Run>, ghost live: seq<Run>, ghost align: int) returns (ok: bool)
      requires Valid() && Sound(v0) && GoodRange(region.base, mapped) && Partly(v0, Now(), region.base, 0, mapped, flags)
      requires PoolFor(kind).live == live + [region] && Maximal(slots)
      requires AllocStep(slots, PoolFor(kind).Slots(), region.size, align, region.base)
      requires Cached(mapper.space) <= tlb
      modifies this`tlb, mapper, mapper.alloc, mapper.alloc.mem, mapper.alloc.bitmap, PoolFor(kind), PoolFor(kind).slots
      ensures !ok <==> |old(PoolFor(kind).Slots())| == CAPACITY
      ensures !ok ==> |live| > CAPACITY - 3
      ensures ok ==>
        && Valid() && PoolFor(kind).Slots() == slots && PoolFor(kind).live == live && tlb == old(tlb)
        && mapper.space.leaves == v0.space.leaves && Evolved(v0, Now()) && Worked(old(Now()), Now())
        && mapper.alloc.out == v0.out + TableFrames(mapper.space)
    {
      hide FrameInv, TreeInv, Owns, Evolved, LeavesPlus, PoolInv, Maximal, AllocStep, FreeStep, Cached, Nodes, SlotsInv, Worked;
      ghost var mid := PoolFor(kind).Slots();
      RollbackRange(region.base, mapped, flags, v0);
      ok := FreeVirt(region, kind, |live|);
      if ok {
        UndoneIsUnchanged(v0, Now(), region.base, mapped, flags);
        AllocThenFreeRestores(slots, mid, PoolFor(kind).Slots(), region.size, align, region.base);
        assert Without(live + [region], |live|) == live;
      }
    }

    /** Unmaps a live region, frees its frames and gives the range back. */
    method UnmapAndDealloc(region: Run, kind: AllocKind, ghost k: nat) returns (r: SpaceResult<()>)
      requires Valid() && k < |PoolFor(kind).live| && PoolFor(kind).live[k] == region
      modifies this`tlb, mapper, mapper.alloc, mapper.alloc.mem, mapper.alloc.bitmap, PoolFor(kind), PoolFor(kind).slots
      ensures r.Stopped? <==> |old(PoolFor(kind).Slots())| == CAPACITY
      ensures r.Stopped? ==> r.cause == SlotsExhausted && |old(PoolFor(kind).live)| > CAPACITY - 2
      ensures !r.Stopped? ==>
        && Valid() && Worked(old(Now()), Now())
        && GoodRange(region.base, region.size / PAGE_SIZE)
        && Shrunk(old(Now()), Now(), region.base, region.size / PAGE_SIZE)
        && FreeStep(old(PoolFor(kind).Slots()), PoolFor(kind).Slots(), region)
        && PoolFor(kind).live == Without(old(PoolFor(kind).live), k)
        && RangeCoherent(tlb, mapper.space, region.base, region.size / PAGE_SIZE)
        && (Coherent(old(tlb), old(mapper.space)) ==> Coherent(tlb, mapper.space))
      ensures !r.Stopped? ==>
        if Nodes(region.base, 0, region.size / PAGE_SIZE) <= old(mapper.space).leaves.Keys
        then r.Done? else r == Failed(UnmapRejected(NotMapped))
    {
      hide FrameInv, TreeInv, Owns, Shrunk, PoolInv, Maximal, FreeStep, SlotsInv, Nodes, Cached, Worked;
      RegionInPool(PoolStart(kind), PoolEnd(kind), PoolFor(kind).Slots(), PoolFor(kind).live, k);
      var n := region.size / PAGE_SIZE;
      ghost var v0 := Now();
      var firstErr := UnmapPages(region.base, n);
      var ok := FreeVirt(region, kind, k);
      if !ok {
        return Stopped(SlotsExhausted);
      }
      FlushRange(region.base, n);
      FlushedIsCoherent(old(tlb), v0, Now(), tlb, region.base, n);
      match firstErr
      case Some(e) => r := Failed(e);
      case None => r := Done(());
    }
  }

  /** `new_kernel`: an address space over a root frame from the allocator, or the panic of an empty one. */
  method NewKernel(alloc: BitmapAllocator) returns (r: Option<AddressSpace>)
    requires alloc.Valid()
    modifies alloc, alloc.mem, alloc.bitmap
    ensures r.None? <==> old(alloc.stack) == []
    ensures r.Some? ==>
      var s, root := r.value, old(alloc.stack)[0];
      && fresh(s) && fresh(s.mapper) && fresh(s.heapVa) && fresh(s.kernelVmVa)
      && fresh(s.heapVa.slots) && fresh(s.kernelVmVa.slots)
      && s.Valid() && s.mapper.alloc == alloc && s.mapper.space == FreshSpace(root) && s.tlb == {}
      && s.heapVa.live == [] && s.kernelVmVa.live == []
      && s.heapVa.Slots() == [Run(HEAP_START, HEAP_END - HEAP_START)]
      && s.kernelVmVa.Slots() == [Run(KERNEL_VM_START, KERNEL_VM_END - KERNEL_VM_START)]
      && alloc.stack == old(alloc.stack)[1..] && alloc.out == old(alloc.out) + {root}
      && alloc.mem.pages == old(alloc.mem.pages)[root := ZeroPage()]
  {
    hide FrameInv, TreeInv, Owns;
    var frame := alloc.Allocate();
    if frame.None? {
      return None;
    }
    var s := new AddressSpace(alloc, frame.value);
    r := Some(s);
  }

  /** No cached translation of the range disagrees with the tables. */
  ghost predicate RangeCoherent(tlb: set<(Node, Leaf)>, sp: Space, base: int, n: int)
  {
    forall e :: e in tlb && e.0 in Nodes(base, 0, n) ==> e in Cached(sp)
  }

  lemma EvolvedFromStart(v: View)
    requires Sound(v)
    ensures Evolved(v, v) && v.out == v.out + TableFrames(v.space)
  {}

  lemma UndoneIsUnchanged(v0: View, v: View, base: int, k: nat, flags: PageFlags)
    requires Sound(v0) && Partly(v0, v, base, k, k, flags)
    ensures v.space.leaves == v0.space.leaves && v.out == v0.out + TableFrames(v.space)
  {
    NothingLeft(v0, v, base, k, flags);
    OnlyTablesKept(v0, v);
  }

  lemma StaleIffMapped(tlb: set<(Node, Leaf)>, v0: View, peak: View, sp: Space, base: int, k: nat, flags: PageFlags)
    requires sp.leaves == v0.space.leaves && Partly(v0, peak, base, 0, k, flags)
    ensures Coherent(tlb, v0.space) ==> (Coherent(tlb + Cached(peak.space), sp) <==> k == 0)
  {
    hide Sound, Evolved;
    assert Cached(v0.space) == Cached(sp);
    if k == 0 {
      assert Nodes(base, 0, 0) == {};
      assert peak.space.leaves == sp.leaves;
      assert Cached(peak.space) == Cached(sp);
    } else {
      var n := Batch.NodeAt(base, 0);
      assert n in Nodes(base, 0, k);
      assert (n, peak.space.leaves[n]) in Cached(peak.space);
      assert (n, peak.space.leaves[n]) !in Cached(sp);
    }
  }

  /** Rolling back does not flush: after a failed request a cached translation is stale unless there
      was no free frame, or the first page of the range was mapped, before the call. */
  lemma StaleWhenRolledBack(tlb: set<(Node, Leaf)>, v0: View, peak: View, sp: Space, base: int, n: nat, flags: PageFlags)
    requires n > 0 && sp.leaves == v0.space.leaves
    requires Fate(v0, base, 0, n).0.NoFrame? || Fate(v0, base, 0, n).0.Rejected?
    requires Partly(v0, peak, base, 0, Fate(v0, base, 0, n).1, flags)
    ensures Coherent(tlb, v0.space) ==>
      (Coherent(tlb + Cached(peak.space), sp) <==> v0.stack == [] || Batch.NodeAt(base, 0) in v0.space.leaves)
  {
    hide Fate, Coherent, Cached, Partly, Batch.NodeAt;
    FailsAtOnce(v0, base, n);
    StaleIffMapped(tlb, v0, peak, sp, base, Fate(v0, base, 0, n).1, flags);
  }

  /** After the flush nothing stale is left of an unmapped range. */
  lemma FlushedIsCoherent(tlb: set<(Node, Leaf)>, v0: View, v: View, tlb': set<(Node, Leaf)>, base: int, n: int)
    requires Shrunk(v0, v, base, n)
    requires RangeCoherent(tlb', v.space, base, n) && tlb' <= tlb + Cached(v0.space) + Cached(v.space)
    ensures Coherent(tlb, v0.space) ==> Coherent(tlb', v.space)
  {
    hide Nodes, Sound, Others, DonatedFrames;
    if Coherent(tlb, v0.space) {
      forall e | e in tlb' ensures e in Cached(v.space) {
        if e.0 !in Nodes(base, 0, n) && e in Cached(v0.space) {
          assert e.0 in v.space.leaves && v.space.leaves[e.0] == v0.space.leaves[e.0];
        }
      }
    }
  }

  function PoolStart(kind: AllocKind): int { if kind.HeapKind? then HEAP_START else KERNEL_VM_START }

  function PoolEnd(kind: AllocKind): int { if kind.HeapKind? then HEAP_END else KERNEL_VM_END }

  lemma NotWholeSpace(lo: int, hi: int)
    requires 0 < lo
    ensures Span(lo, hi) != Span(0, WORD_LIMIT)
  {
    assert 0 in Span(0, WORD_LIMIT);
  }

  /** A live region lies in its pool. */
  lemma RegionInPool(lo: int, hi: int, s: seq<Run>, live: seq<Run>, k: nat)
    requires PoolInv(Span(lo, hi), s, live) && k < |live| && SlotInv(live[k])
    ensures lo <= live[k].base && live[k].End() <= hi
  {
    RunIsCovered(live, k);
    assert live[k].base in live[k].Addresses() && live[k].End() - 1 in live[k].Addresses();
  }
}
