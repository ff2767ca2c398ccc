/** Inputs on which documented promises fail, carried out on the model. */
module Witnesses {
  import opened Addr
  import opened AddressSpaces
  import opened Batch
  import opened Demand
  import opened Entry
  import opened Frames
  import opened FreeRuns
  import opened Mapper
  import opened Ownership
  import opened PageTables
  import opened PhysMem
  import opened Region
  import opened Results
  import opened Steps

  /** A fresh space lacks all three tables below the root. */
  lemma FreshMissesThree(root: Frame, v: Word)
    ensures Missing(FreshSpace(root), v) == 3
  {
    NodesOnTheWay(v);
  }

  /** With one free frame, which becomes the root table, mapping any page panics instead of
      returning the documented error. */
  method MapPanicsOnEmptyList(alloc: BitmapAllocator, virt: Word, frame: Frame, flags: PageFlags) returns (r: MapResult)
    requires alloc.Valid() && |alloc.stack| == 1 && virt % PAGE_SIZE == 0 && IsCanonical(virt)
    modifies alloc, alloc.mem, alloc.bitmap
    ensures r.MapPanic?
  {
    hide FrameInv, TreeInv, IsCanonical, Missing, Owns;
    var s := NewKernel(alloc);
    FreshMissesThree(s.value.mapper.pml4, virt);
    r := s.value.mapper.Map(virt, frame, flags);
  }

  lemma SameIndices(level: nat)
    requires 2 <= level <= 4
    ensures IndexOf(level, HEAP_START) == IndexOf(level, HEAP_START + PAGE_SIZE)
  {
    hide IndexOf;
    IndexIsField(level, HEAP_START);
    IndexIsField(level, HEAP_START + PAGE_SIZE);
  }

  /** The first two pages of the heap range share their tables. */
  lemma SamePath()
    ensures Path(HEAP_START) == Path(HEAP_START + PAGE_SIZE)
  {
    hide IndexOf;
    SameIndices(4);
    SameIndices(3);
    SameIndices(2);
  }

  lemma HeapRange()
    ensures GoodRange(HEAP_START, 2) && HEAP_START % PAGE_SIZE == 0 && IsCanonical(HEAP_START + PAGE_SIZE)
    ensures PageAt(HEAP_START, 0) == HEAP_START && PageAt(HEAP_START, 1) == HEAP_START + PAGE_SIZE
  {
    hide IsCanonical;
    RangePage(HEAP_START, 2, 1);
  }

  /** The start of a pool that is free throughout is its lowest fit, and taking it uses no more slots. */
  lemma WholePool(lo: int, hi: int, size: int, align: int)
    requires 0 < size < hi - lo && align > 0 && lo % align == 0
    ensures var s := [Run(lo, hi - lo)];
            !NoRoom(s, size, align) && IsLowest(s, size, align, lo) && SlotsAfter(s, size, lo) == 1
            && forall at :: IsLowest(s, size, align, at) ==> at == lo
  {
    var s := [Run(lo, hi - lo)];
    CoverOne(s[0]);
    assert Cover(s) == Span(lo, hi);
    assert Fits(Cover(s), size, align, lo);
    forall at | Fits(Cover(s), size, align, at) ensures lo <= at {
      assert at in Span(at, at + size);
    }
  }

  /** The second of two pages is mapped, their tables exist and two frames are free: the first page
      is mapped and the second one rejected. */
  lemma RejectedAtSecond(v: View)
    requires |v.stack| >= 2 && v.space.leaves.Keys == {Batch.NodeAt(HEAP_START, 1)}
    requires Path(HEAP_START + PAGE_SIZE) <= v.space.tables.Keys
    ensures MeetsMapped(v, HEAP_START, 2)
    ensures v.stack != [] && Batch.NodeAt(HEAP_START, 0) !in v.space.leaves
  {
    hide Batch.NodeAt, Path, IsCanonical, PageNode;
    HeapRange();
    SamePath();
    NodesDiffer(HEAP_START, 2, 0, 1);
    NoNeed(v.space, HEAP_START);
    assert TablesFor(HEAP_START, 1) == TablesFor(HEAP_START, 0) + PathAt(HEAP_START, 0);
    assert TablesFor(HEAP_START, 1) - v.space.tables.Keys == {};
    assert Need(v.space, HEAP_START, 1) == 1;
    assert FateAt(v, HEAP_START, 0).AllMapped?;
    assert FateAt(v, HEAP_START, 1) == Rejected(AlreadyMapped);
    assert Fate(v, HEAP_START, 0, 2) == (Rejected(AlreadyMapped), 1);
    WhenRejected(v, HEAP_START, 2);
  }

  lemma SecondPage(sp: Space, sp': Space, l: Leaf)
    requires sp.leaves == map[] && sp'.leaves == sp.leaves[PageNode(HEAP_START + PAGE_SIZE) := l]
    ensures sp'.leaves.Keys == {Batch.NodeAt(HEAP_START, 1)}
  {
    hide PageNode;
    HeapRange();
  }

  /** A new space with its second heap page mapped. */
  method WithSecondPage(alloc: BitmapAllocator, flags: PageFlags) returns (s: AddressSpace)
    requires alloc.Valid() && |alloc.stack| >= 7
    modifies alloc, alloc.mem, alloc.bitmap
    ensures fresh(s) && fresh(s.mapper) && fresh(s.heapVa) && fresh(s.heapVa.slots) && s.mapper.alloc == alloc
    ensures s.Valid() && s.tlb == {} && s.heapVa.Slots() == [Run(HEAP_START, HEAP_END - HEAP_START)]
    ensures |alloc.stack| >= 2 && s.mapper.space.leaves.Keys == {Batch.NodeAt(HEAP_START, 1)}
    ensures Path(HEAP_START + PAGE_SIZE) <= s.mapper.space.tables.Keys
  {
    hide FrameInv, TreeInv, IsCanonical, Missing, Owns, Owned, Path, PageNode, Grown, Reach, GoodRange, Batch.NodeAt, Others, DonatedFrames,
      TableFrames, SameOutside, AddressSpace.PoolsValid;
    HeapRange();
    var made := NewKernel(alloc);
    s := made.value;
    ghost var v0 := s.Now();
    FreshMissesThree(s.mapper.pml4, HEAP_START + PAGE_SIZE);
    AllocatorFacts(alloc);
    var frame := TakeFrame(s.mapper);
    ghost var v1 := s.Now();
    TakeMovesFrame(v0, v1);
    var mapped := s.mapper.Map(HEAP_START + PAGE_SIZE, frame.value, flags);
    ghost var v2, l := s.Now(), Leaf(frame.value, flags);
    MapMovesFrame(v1, v2, HEAP_START + PAGE_SIZE, l);
    GrownStack(v1, v2.(space := v2.space.(leaves := v1.space.leaves)), 3);
    SecondPage(v1.space, v2.space, l);
  }

  /** A two-page request whose second page is already mapped fails and leaves a translation of the
      first page cached that the tables no longer have. */
  method RollbackLeavesStale(alloc: BitmapAllocator, flags: PageFlags) returns (s: AddressSpace, r: SpaceResult<Run>)
    requires alloc.Valid() && |alloc.stack| >= 7
    modifies alloc, alloc.mem, alloc.bitmap
    ensures fresh(s) && s.Valid() && r == Failed(MapRejected(AlreadyMapped)) && !Coherent(s.tlb, s.mapper.space)
  {
    hide FrameInv, TreeInv, Owns, Path, MeetsMapped, RunsDry, LacksTable, SlotsAfter, IsLowest, NoRoom, Batch.NodeAt, Cached, AddressSpace.PoolsValid,
         IsPowerOfTwo, Evolved, TableFrames;
    PageIsPowerOfTwo();
    s := WithSecondPage(alloc, flags);
    RejectedAtSecond(s.Now());
    WholePool(HEAP_START, HEAP_END, 2 * PAGE_SIZE, PAGE_SIZE);
    ghost var at;
    r, at := s.AllocAndMap(2 * PAGE_SIZE, PAGE_SIZE, flags, HeapKind);
  }
}
