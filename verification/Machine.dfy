/** Address spaces that share one frame allocator, with the operations the kernel offers on them. */
module Machine {
  import opened Addr
  import opened AddressSpaces
  import opened Batch
  import opened Boot
  import opened Demand
  import opened Entry
  import opened Frames
  import opened FreeRuns
  import opened Kernel
  import opened Mapper
  import opened Ownership
  import opened PageTables
  import opened PhysMem
  import opened Pools
  import opened Region
  import opened Results
  import opened Steps

  /** The objects of one address space. */
  ghost function Parts(s: AddressSpace): set<object>
  {
    {s, s.mapper, s.heapVa, s.heapVa.slots, s.kernelVmVa, s.kernelVmVa.slots}
  }

  /** The two spaces share no object. */
  ghost predicate OtherThan(a: AddressSpace, b: AddressSpace)
  {
    && b != a && b.mapper != a.mapper && b.heapVa != a.heapVa && b.heapVa != a.kernelVmVa
    && b.kernelVmVa != a.heapVa && b.kernelVmVa != a.kernelVmVa
    && b.heapVa.slots != a.heapVa.slots && b.heapVa.slots != a.kernelVmVa.slots
    && b.kernelVmVa.slots != a.heapVa.slots && b.kernelVmVa.slots != a.kernelVmVa.slots
  }

  ghost function Mappers(ss: seq<AddressSpace>): set<PageTableMapper>
  {
    set s | s in ss :: s.mapper
  }

  /** The trees of the spaces. */
  ghost function Trees(ss: seq<AddressSpace>): (ts: seq<Space>)
    reads Mappers(ss)
    ensures |ts| == |ss| && forall i :: 0 <= i < |ss| ==> ts[i] == ss[i].mapper.space
  {
    seq(|ss|, i requires 0 <= i < |ss| reads Mappers(ss) => ss[i].mapper.space)
  }

  /** The regions clients own in the two pools of a space. */
  datatype Rights = Rights(heap: seq<Run>, vm: seq<Run>) {
    function Of(kind: AllocKind): seq<Run> { if kind.HeapKind? then heap else vm }

    function With(kind: AllocKind, rs: seq<Run>): Rights
    {
      if kind.HeapKind? then Rights(rs, vm) else Rights(heap, rs)
    }
  }

  /** What a space is made of, apart from its tables. */
  ghost predicate Wired(s: AddressSpace, alloc: BitmapAllocator, r: Rights)
    reads s.mapper, s.heapVa, s.heapVa.slots, s.kernelVmVa, s.kernelVmVa.slots
  {
    && s.mapper.alloc == alloc && s.mapper.space.root == s.mapper.pml4 && s.PoolsValid()
    && s.heapVa.live == r.heap && s.kernelVmVa.live == r.vm
  }

  /** An operation a client asks for. */
  datatype Command =
    | TakeOne
    | GiveBack(f: Frame)
    | CreateSpace
    | MapPage(i: nat, virt: Word, frame: Frame, flags: PageFlags)
    | UnmapPage(i: nat, virt: Word)
    | RemapPage(i: nat, virt: Word, flags: PageFlags)
    | AllocPages(i: nat, size: Word, align: Word, flags: PageFlags, kind: AllocKind)
    | FreePages(i: nat, kind: AllocKind, j: nat)
    | WriteFrame(f: Frame, word: nat, value: Word)
    | StoreAt(i: nat, virt: Word, value: Word)

  /** The kernel and what its clients own. */
  datatype Snapshot = Snapshot(k: State, rights: seq<Rights>)

  /** The free addresses of a pool. */
  ghost function FreeOf(kind: AllocKind, live: seq<Run>): set<int>
  {
    Span(PoolStart(kind), PoolEnd(kind)) - Cover(live)
  }

  /** `alloc_and_map` told from the free frames, the page tables and the live regions: the lowest fit
      is backed if it can be; otherwise, and for a bad request or without a fit, no page changes. */
  ghost predicate AllocDoes(v: View, v': View, live: seq<Run>, live': seq<Run>,
                            size: Word, align: Word, flags: PageFlags, kind: AllocKind)
  {
    if BadRequest(size, align) || NoFitIn(FreeOf(kind, live), size, align) then v' == v && live' == live
    else exists at ::
      && LowestIn(FreeOf(kind, live), size, align, at)
      && if Backable(v, at, size / PAGE_SIZE)
         then Partly(v, v', at, 0, size / PAGE_SIZE, flags) && live' == live + [Run(at, size)]
         else Evolved(v, v') && v'.space.leaves == v.space.leaves && live' == live
  }

  ghost predicate NoFitIn(free: set<int>, size: int, align: int)
  {
    align > 0 ==> forall at :: !Fits(free, size, align, at)
  }

  ghost predicate LowestIn(free: set<int>, size: int, align: int, at: int)
  {
    align > 0 && LowestFit(free, size, align, at)
  }

  /** When `alloc_and_map` panics: the range needs more slots than there are, the frames give out at a
      table, or a failed request cannot give its range back. */
  ghost predicate AllocPanics(v: View, live: seq<Run>, size: Word, align: Word, kind: AllocKind)
  {
    && !BadRequest(size, align)
    && exists at :: LowestIn(FreeOf(kind, live), size, align, at) && PanicsAt(v, FreeOf(kind, live), size, at)
  }

  ghost predicate PanicsAt(v: View, free: set<int>, size: Word, at: int)
  {
    var used, n := |Starts(free - Span(at, at + size))|, size / PAGE_SIZE;
    used > CAPACITY || LacksTable(v, at, n) || (used == CAPACITY && (RunsDry(v, at, n) || MeetsMapped(v, at, n)))
  }

  ghost predicate HasRegion(a: Snapshot, i: nat, kind: AllocKind, j: nat)
  {
    i < |a.k.spaces| && i < |a.rights| && j < |a.rights[i].Of(kind)|
  }

  /** When a command panics. */
  ghost predicate Panics(c: Command, a: Snapshot)
  {
    match c
    case CreateSpace => a.k.stack == []
    case MapPage(i, virt, frame, _) =>
      && i < |a.k.spaces| && frame in a.k.hand && virt % PAGE_SIZE == 0 && IsCanonical(virt)
      && |a.k.stack| < Missing(a.k.spaces[i], virt)
    case AllocPages(i, size, align, _, kind) =>
      i < |a.k.spaces| && i < |a.rights| && AllocPanics(ViewOf(a.k, i), a.rights[i].Of(kind), size, align, kind)
    case FreePages(i, kind, j) => HasRegion(a, i, kind, j) && |Starts(FreeOf(kind, a.rights[i].Of(kind)))| == CAPACITY
    case _ => false
  }

  /** What a command does when it does not panic. A command that names a frame, a space or a region
      its client does not have is refused and changes nothing. */
  ghost predicate Obeys(c: Command, a: Snapshot, b: Snapshot)
  {
    var k, k' := a.k, b.k;
    match c
    case TakeOne =>
      if k.stack == [] then b == a
      else b == Snapshot(k.(stack := k.stack[1..], out := k.out + {k.stack[0]}, hand := k.hand + {k.stack[0]}), a.rights)
    case GiveBack(f) =>
      if f !in k.hand then b == a
      else
        && SameOutside(k.pages, k'.pages, {f})
        && b == Snapshot(k.(pages := k'.pages, stack := [f] + k.stack, out := k.out - {f}, hand := k.hand - {f}), a.rights)
    case CreateSpace =>
      && k.stack != [] && |k.pages| == FRAME_COUNT && b.rights == a.rights + [Rights([], [])]
      && var root := k.stack[0];
         k' == State(k.pages[root := ZeroPage()], k.stack[1..], k.out + {root}, k.hand, k.spaces + [FreshSpace(root)])
    case MapPage(i, virt, frame, flags) =>
      if i < |k.spaces| && frame in k.hand && virt % PAGE_SIZE == 0 && IsCanonical(virt) && PageNode(virt) !in k.spaces[i].leaves
      then SpaceStep(k, k', i) && k'.hand == k.hand - {frame} && b.rights == a.rights
           && MapStep(ViewOf(k, i), ViewOf(k', i), virt, Leaf(frame, flags))
      else b == a
    case UnmapPage(i, virt) =>
      if i < |k.spaces| && virt % PAGE_SIZE == 0 && PageNode(virt) in k.spaces[i].leaves
      then SpaceStep(k, k', i) && k'.hand == k.hand + {k.spaces[i].leaves[PageNode(virt)].frame} && b.rights == a.rights
           && UnmapStep(ViewOf(k, i), ViewOf(k', i), virt)
      else b == a
    case RemapPage(i, virt, flags) =>
      if i < |k.spaces| && virt % PAGE_SIZE == 0 && PageNode(virt) in k.spaces[i].leaves
      then SpaceStep(k, k', i) && k'.hand == k.hand && b.rights == a.rights
           && RemapStep(ViewOf(k, i), ViewOf(k', i), virt, flags)
      else b == a
    case AllocPages(i, size, align, flags, kind) =>
      if i < |k.spaces| && i < |a.rights|
      then SpaceStep(k, k', i) && k'.hand == k.hand && RightsStep(a.rights, b.rights, i, kind)
           && AllocDoes(ViewOf(k, i), ViewOf(k', i), a.rights[i].Of(kind), b.rights[i].Of(kind), size, align, flags, kind)
      else b == a
    case FreePages(i, kind, j) =>
      if HasRegion(a, i, kind, j)
      then var region := a.rights[i].Of(kind)[j];
           && SpaceStep(k, k', i) && k'.hand == k.hand && RightsStep(a.rights, b.rights, i, kind)
           && Shrunk(ViewOf(k, i), ViewOf(k', i), region.base, region.size / PAGE_SIZE)
           && b.rights[i].Of(kind) == Without(a.rights[i].Of(kind), j)
      else b == a
    case WriteFrame(f, word, value) =>
      if |k.pages| == FRAME_COUNT && f in k.hand && word < WORDS_PER_PAGE
      then b == Snapshot(k.(pages := Write(k.pages, f, word, value)), a.rights)
      else b == a
    case StoreAt(i, virt, value) =>
      if |k.pages| == FRAME_COUNT && i < |k.spaces| && PageNode(virt) in k.spaces[i].leaves
      then b == Snapshot(k.(pages := Write(k.pages, k.spaces[i].leaves[PageNode(virt)].frame, virt % PAGE_SIZE / 8, value)), a.rights)
      else b == a
  }

  /** Only the rights to regions of one kind in one space may differ. */
  ghost predicate RightsStep(r: seq<Rights>, r': seq<Rights>, i: nat, kind: AllocKind)
  {
    i < |r| && |r'| == |r| && r' == r[i := r[i].With(kind, r'[i].Of(kind))]
  }

  lemma Refused(c: Command, k: State, rs: seq<Rights>)
    requires c.MapPage? && c.i < |k.spaces|
    requires c.virt % PAGE_SIZE != 0 || !IsCanonical(c.virt) || PageNode(c.virt) in k.spaces[c.i].leaves
    ensures Obeys(c, Snapshot(k, rs), Snapshot(k, rs))
  {
    hide IsCanonical, PageNode;
  }

  lemma MapPanicsIs(i: nat, virt: Word, frame: Frame, flags: PageFlags, a: Snapshot)
    requires i < |a.k.spaces| && frame in a.k.hand
    ensures Panics(MapPage(i, virt, frame, flags), a)
      <==> virt % PAGE_SIZE == 0 && IsCanonical(virt) && Missing(a.k.spaces[i], virt) > |a.k.stack|
  {}

  lemma MapObeys(k: State, rs: seq<Rights>, i: nat, v: View, virt: Word, frame: Frame, flags: PageFlags)
    requires i < |k.spaces| && frame in k.hand
    requires virt % PAGE_SIZE == 0 && IsCanonical(virt) && PageNode(virt) !in k.spaces[i].leaves
    requires MapStep(ViewOf(k, i), v, virt, Leaf(frame, flags))
    ensures Obeys(MapPage(i, virt, frame, flags), Snapshot(k, rs), Snapshot(WithLocal(k, i, Local(v, {} + (k.hand - {frame}))), rs))
  {
    hide MapStep, IsCanonical, PageNode;
    var k' := WithLocal(k, i, Local(v, {} + (k.hand - {frame})));
    assert ViewOf(k', i) == v;
  }

  lemma AllocObeys(k: State, rs: seq<Rights>, i: nat, v: View, live: seq<Run>, size: Word, align: Word, flags: PageFlags, kind: AllocKind)
    requires i < |k.spaces| && i < |rs| && AllocDoes(ViewOf(k, i), v, rs[i].Of(kind), live, size, align, flags, kind)
    ensures Obeys(AllocPages(i, size, align, flags, kind), Snapshot(k, rs),
                  Snapshot(WithLocal(k, i, Local(v, {} + (k.hand - {}))), rs[i := rs[i].With(kind, live)]))
  {
    hide AllocDoes;
    var k' := WithLocal(k, i, Local(v, {} + (k.hand - {})));
    assert ViewOf(k', i) == v;
  }

  lemma FreeObeys(k: State, rs: seq<Rights>, i: nat, v: View, kind: AllocKind, j: nat)
    requires i < |k.spaces| && i < |rs| && j < |rs[i].Of(kind)|
    requires Shrunk(ViewOf(k, i), v, rs[i].Of(kind)[j].base, rs[i].Of(kind)[j].size / PAGE_SIZE)
    ensures Obeys(FreePages(i, kind, j), Snapshot(k, rs),
                  Snapshot(WithLocal(k, i, Local(v, {} + (k.hand - {}))), rs[i := rs[i].With(kind, Without(rs[i].Of(kind), j))]))
  {
    hide Shrunk, Without;
    var k' := WithLocal(k, i, Local(v, {} + (k.hand - {})));
    assert ViewOf(k', i) == v;
  }

  /** The slots of a pool cover what its live regions leave. */
  lemma FreeIsRest(kind: AllocKind, slots: seq<Run>, live: seq<Run>)
    requires PoolInv(Span(PoolStart(kind), PoolEnd(kind)), slots, live)
    ensures Cover(slots) == FreeOf(kind, live) && |Starts(FreeOf(kind, live))| == |slots|
  {
    hide Cover, Span, Starts;
    assert Cover(slots) == FreeOf(kind, live);
    RunCount(slots);
  }

  lemma SlotsOfPool(s: AddressSpace, kind: AllocKind)
    requires s.PoolsValid()
    ensures s.PoolFor(kind).Shape() && |Starts(FreeOf(kind, s.PoolFor(kind).live))| == |s.PoolFor(kind).Slots()|
  {
    hide PoolInv, SlotsInv, Starts, FreeOf;
    FreeIsRest(kind, s.PoolFor(kind).Slots(), s.PoolFor(kind).live);
  }

  lemma VerdictPanics(r: SpaceResult<Run>, v: View, slots: seq<Run>, live: seq<Run>, size: Word, align: Word, kind: AllocKind, at: int)
    requires Verdict(r, v, slots, size, align, at) && PoolInv(Span(PoolStart(kind), PoolEnd(kind)), slots, live)
    ensures r.Stopped? <==> AllocPanics(v, live, size, align, kind)
  {
    hide Cover, Span, BadRequest, Maximal, PanicsAt, LowestFit, BackedAs, SlotsAfter;
    FreeIsRest(kind, slots, live);
    GoodAlign(size, align);
    if BadRequest(size, align) {
    } else if NoRoom(slots, size, align) {
      forall x ensures !LowestIn(FreeOf(kind, live), size, align, x) { NoneIsLowest(slots, size, align, x); }
    } else {
      PoolIsMaximal(kind, slots, live);
      StopsAt(r, v, slots, size, align, at);
      forall x | LowestIn(FreeOf(kind, live), size, align, x) ensures x == at { OneLowest(FreeOf(kind, live), size, align, x, at); }
    }
  }

  lemma NoneIsLowest(slots: seq<Run>, size: int, align: int, x: int)
    requires NoRoom(slots, size, align)
    ensures !LowestIn(Cover(slots), size, align, x)
  {}

  lemma OneLowest(free: set<int>, size: int, align: int, x: int, y: int)
    requires LowestIn(free, size, align, x) && LowestIn(free, size, align, y)
    ensures x == y
  {
    hide Fits;
  }

  lemma StopsAt(r: SpaceResult<Run>, v: View, slots: seq<Run>, size: Word, align: Word, at: int)
    requires Verdict(r, v, slots, size, align, at) && Maximal(slots) && !BadRequest(size, align) && !NoRoom(slots, size, align)
    ensures LowestIn(Cover(slots), size, align, at) && (r.Stopped? <==> PanicsAt(v, Cover(slots), size, at))
  {
    hide Cover, Span, Starts, LacksTable, RunsDry, MeetsMapped, Backable, SlotsAfter, Maximal, LowestFit, NoRoom;
    GoodAlign(size, align);
    SlotsAreRuns(slots, size, align, at);
    if r.Stopped? {
      match r.cause
      case SlotsExhausted =>
      case FramesExhausted =>
    }
  }

  lemma PoolIsMaximal(kind: AllocKind, slots: seq<Run>, live: seq<Run>)
    requires PoolInv(Span(PoolStart(kind), PoolEnd(kind)), slots, live)
    ensures Maximal(slots)
  {}

  lemma VerdictDoes(r: SpaceResult<Run>, v: View, v': View, slots: seq<Run>, live: seq<Run>, live': seq<Run>,
                    size: Word, align: Word, flags: PageFlags, kind: AllocKind, at: int)
    requires Verdict(r, v, slots, size, align, at) && PoolInv(Span(PoolStart(kind), PoolEnd(kind)), slots, live) && !r.Stopped?
    requires r.Done? ==> Partly(v, v', at, 0, size / PAGE_SIZE, flags) && live' == live + [r.value]
    requires r.Failed? ==> Evolved(v, v') && v'.space.leaves == v.space.leaves && live' == live
    requires r.Failed? && r.error.RegionFailed? ==> v' == v
    ensures AllocDoes(v, v', live, live', size, align, flags, kind)
  {
    hide Cover, Span, BadRequest, LacksTable, RunsDry, MeetsMapped, Backable, SlotsAfter, Maximal, Partly, Evolved;
    FreeIsRest(kind, slots, live);
    GoodAlign(size, align);
    if !BadRequest(size, align) && !NoRoom(slots, size, align) {
      assert LowestIn(FreeOf(kind, live), size, align, at);
    }
  }

  /** `alloc_and_map` on one space, as the machine sees it. */
  method AllocOn(s: AddressSpace, size: Word, align: Word, flags: PageFlags, kind: AllocKind)
    returns (r: SpaceResult<Run>, ghost at: int)
    requires s.Valid()
    modifies s, s.mapper, s.mapper.alloc, s.mapper.alloc.mem, s.mapper.alloc.bitmap, s.PoolFor(kind), s.PoolFor(kind).slots
    ensures Verdict(r, old(s.Now()), old(s.PoolFor(kind).Slots()), size, align, at)
    ensures r.Stopped? <==> AllocPanics(old(s.Now()), old(s.PoolFor(kind).live), size, align, kind)
    ensures !r.Stopped? ==> s.Valid() && Worked(old(s.Now()), s.Now())
    ensures !r.Stopped? ==>
      AllocDoes(old(s.Now()), s.Now(), old(s.PoolFor(kind).live), s.PoolFor(kind).live, size, align, flags, kind)
    ensures r.Done? ==> Partly(old(s.Now()), s.Now(), at, 0, size / PAGE_SIZE, flags)
    ensures !r.Stopped? ==> s.PoolFor(kind).live == old(s.PoolFor(kind).live) + (if r.Done? then [r.value] else [])
  {
    hide Verdict, Worked, Partly, Evolved, AllocStep, RangeCoherent, Cached, Coherent, TableFrames, GoodRange, AllocDoes,
         AllocPanics, PoolInv, SlotsInv, FrameInv, TreeInv, Owns;
    ghost var v, slots, live := s.Now(), s.PoolFor(kind).Slots(), s.PoolFor(kind).live;
    assert PoolInv(Span(PoolStart(kind), PoolEnd(kind)), slots, live);
    r, at := s.AllocAndMap(size, align, flags, kind);
    VerdictPanics(r, v, slots, live, size, align, kind, at);
    if !r.Stopped? {
      VerdictDoes(r, v, s.Now(), slots, live, s.PoolFor(kind).live, size, align, flags, kind, at);
    }
  }

  class KernelMachine {
    const alloc: BitmapAllocator
    var spaces: seq<AddressSpace>
    /** The frames and the regions clients own. */
    var hand: set<Frame>
    var rights: seq<Rights>
    /** The objects of all spaces. */
    ghost var repr: set<object>

    ghost function Footprint(): set<object>
      reads this`repr
    {
      {this, alloc, alloc.mem, alloc.bitmap} + repr
    }

    ghost function Now(): State
      reads this`spaces, this`hand, alloc, alloc.mem, Mappers(spaces)
    {
      State(alloc.mem.pages, alloc.stack, alloc.out, hand, Trees(spaces))
    }

    ghost function Snap(): Snapshot
      reads this`spaces, this`hand, this`rights, alloc, alloc.mem, Mappers(spaces)
    {
      Snapshot(Now(), rights)
    }

    ghost predicate Built()
      reads this`spaces, this`rights, this`repr, repr
    {
      BuiltFor(rights)
    }

    /** Everything but the tables, for clients with the rights `rs`. */
    ghost predicate BuiltFor(rs: seq<Rights>)
      reads this`spaces, this`repr, repr
    {
      && this !in repr && alloc !in repr && alloc.mem !in repr && alloc.bitmap !in repr
      && |rs| == |spaces|
      && (forall i :: 0 <= i < |spaces| ==> Parts(spaces[i]) <= repr && Wired(spaces[i], alloc, rs[i]))
      && (forall i, j {:trigger OtherThan(spaces[i], spaces[j])} ::
            0 <= i < |spaces| && 0 <= j < |spaces| && i != j ==> OtherThan(spaces[i], spaces[j]))
    }

    ghost predicate Valid()
      reads this, alloc, alloc.mem, alloc.bitmap, repr
    {
      Built() && alloc.Valid() && KernelInv(Now())
    }

    /** The machine right after boot. */
    constructor (alloc: BitmapAllocator)
      requires alloc.Valid() && alloc.out == {}
      ensures this.alloc == alloc && Valid() && Booted(Now()) && repr == {} && rights == [] && Donated(Now()) == alloc.Donated()
    {
      this.alloc := alloc;
      spaces, hand, rights, repr := [], {}, [], {};
      new;
      AllocatorFacts(alloc);
    }

    /** Every address space is valid, whichever one was last worked on. */
    lemma EverySpaceValid(i: nat)
      requires Valid() && i < |spaces|
      ensures spaces[i].Valid() && spaces[i].Now() == ViewOf(Now(), i)
    {
      hide KernelInv, FrameInv;
      SoundSpace(Now(), i);
    }

    /** No object of another space is an object of space `i`. */
    lemma OthersApart(i: nat)
      requires Built() && i < |spaces|
      ensures forall j :: 0 <= j < |spaces| && j != i ==> OtherThan(spaces[i], spaces[j])
      ensures spaces[i].heapVa != spaces[i].kernelVmVa && spaces[i].heapVa.slots != spaces[i].kernelVmVa.slots
    {
      assert Wired(spaces[i], alloc, rights[i]);
    }

    /** What work on space `i` reaches is reached by a run of the kernel. */
    lemma WorkFollows(k: State, i: nat, held: set<Frame>, b: Local)
      requires KernelInv(k) && i < |k.spaces| && held <= k.hand && Reach(Local(ViewOf(k, i), held), b)
      requires Now() == WithLocal(k, i, Local(b.v, b.held + (k.hand - held)))
      ensures KernelInv(Now()) && Follows(k, Now())
    {
      hide KernelInv, Reach, Follows;
      FollowsLocal(k, i, held, b);
      FollowsKeeps(k, Now());
    }

    method Take() returns (r: Option<Frame>)
      requires Valid()
      modifies this`hand, alloc, alloc.bitmap
      ensures Valid() && Follows(old(Now()), Now())
      ensures r.None? <==> old(alloc.stack) == []
      ensures r.Some? ==> r.value == old(alloc.stack)[0]
      ensures Obeys(TakeOne, old(Snap()), Snap())
    {
      hide KernelInv, FrameInv, Follows, Wired;
      ghost var k := Now();
      FollowsNothing(k);
      MemorySize(k);
      r := alloc.Allocate();
      assert Trees(spaces) == k.spaces;
      if r.Some? {
        hand := hand + {r.value};
        FollowsStep(k, Event.Take, Now());
        FollowsKeeps(k, Now());
      }
    }

    /** Returns a frame a client owns. */
    method Give(f: Frame)
      requires Valid() && f in hand
      modifies this`hand, alloc, alloc.mem, alloc.bitmap
      ensures Valid() && Follows(old(Now()), Now())
      ensures Obeys(GiveBack(f), old(Snap()), Snap())
    {
      hide KernelInv, FrameInv, Follows, Wired;
      ghost var k, link := Now(), alloc.freeListHead;
      HandIsOut(k);
      AllocatorFacts(alloc);
      var ok := alloc.Deallocate(f);
      hand := hand - {f};
      assert Trees(spaces) == k.spaces;
      FollowsStep(k, Event.Give(f, link), Now());
      FollowsKeeps(k, Now());
    }

    /** A frame's owner writes to it. */
    method WriteTo(f: Frame, word: nat, value: Word)
      requires Valid() && word < WORDS_PER_PAGE && f in alloc.out && Enabled(Now(), OwnerWrite(f, word, value))
      modifies alloc.mem
      ensures Valid() && Follows(old(Now()), Now()) && Now() == Next(old(Now()), OwnerWrite(f, word, value))
    {
      hide KernelInv, FrameInv, Follows, Wired, Enabled;
      ghost var k := Now();
      alloc.OwnerWrite(f, word, value);
      assert Trees(spaces) == k.spaces;
      FollowsStep(k, OwnerWrite(f, word, value), Now());
      FollowsKeeps(k, Now());
    }

    method Map(i: nat, virt: Word, frame: Frame, flags: PageFlags) returns (r: MapResult)
      requires Valid() && i < |spaces| && frame in hand
      modifies this`hand, spaces[i].mapper, alloc, alloc.mem, alloc.bitmap
      ensures !r.MapPanic? ==> Valid() && Follows(old(Now()), Now())
      ensures r.Mapped? <==> virt % PAGE_SIZE == 0 && IsCanonical(virt) && PageNode(virt) !in old(spaces[i].mapper.space).leaves
                             && Missing(old(spaces[i].mapper.space), virt) <= |old(alloc.stack)|
      ensures r.MapPanic? <==> Panics(MapPage(i, virt, frame, flags), old(Snap()))
      ensures !r.MapPanic? ==> Obeys(MapPage(i, virt, frame, flags), old(Snap()), Snap())
    {
      hide KernelInv, FrameInv, TreeInv, Follows, Reach, IsCanonical, MapStep, Path, Missing,
           AddressSpace.PoolsValid, Owns, PageNode, Obeys, Panics;
      MapPanicsIs(i, virt, frame, flags, Snap());
      ghost var k, s := Now(), spaces[i];
      EverySpaceValid(i);
      OthersApart(i);
      FollowsNothing(k);
      r := spaces[i].mapper.Map(virt, frame, flags);
      match r
      case MapPanic =>
      case MapFailed(_, _) =>
        assert Trees(spaces) == k.spaces;
        Refused(MapPage(i, virt, frame, flags), k, rights);
      case Mapped =>
        hand := hand - {frame};
        assert Trees(spaces) == k.spaces[i := s.mapper.space];
        WorkFollows(k, i, {frame}, Local(s.Now(), {}));
        MapObeys(k, rights, i, s.Now(), virt, frame, flags);
    }

    method Unmap(i: nat, virt: Word) returns (r: UnmapResult)
      requires Valid() && i < |spaces|
      modifies this`hand, spaces[i].mapper, alloc.mem
      ensures Valid() && Follows(old(Now()), Now())
      ensures r.Unmapped? <==> virt % PAGE_SIZE == 0 && PageNode(virt) in old(spaces[i].mapper.space).leaves
      ensures Obeys(UnmapPage(i, virt), old(Snap()), Snap())
    {
      hide KernelInv, FrameInv, TreeInv, Follows, Reach, UnmapStep, AddressSpace.PoolsValid,
           Owns, PageNode;
      ghost var k, s := Now(), spaces[i];
      EverySpaceValid(i);
      OthersApart(i);
      ReachNothing(Local(ViewOf(k, i), {}));
      r := spaces[i].mapper.Unmap(virt);
      ghost var got := if r.Unmapped? then {r.frame} else {};
      if r.Unmapped? {
        hand := hand + {r.frame};
      }
      assert Trees(spaces) == k.spaces[i := s.mapper.space];
      WorkFollows(k, i, {}, Local(s.Now(), got));
    }

    method Remap(i: nat, virt: Word, flags: PageFlags) returns (r: RemapResult)
      requires Valid() && i < |spaces|
      modifies spaces[i].mapper, alloc, alloc.mem, alloc.bitmap
      ensures Valid() && Follows(old(Now()), Now())
      ensures r.Remapped? <==> virt % PAGE_SIZE == 0 && PageNode(virt) in old(spaces[i].mapper.space).leaves
      ensures Obeys(RemapPage(i, virt, flags), old(Snap()), Snap())
    {
      hide KernelInv, FrameInv, TreeInv, Follows, Reach, RemapStep, AddressSpace.PoolsValid,
           Owns, PageNode;
      ghost var k, s := Now(), spaces[i];
      EverySpaceValid(i);
      OthersApart(i);
      ReachNothing(Local(ViewOf(k, i), {}));
      r := spaces[i].mapper.Remap(virt, flags);
      assert Trees(spaces) == k.spaces[i := s.mapper.space];
      WorkFollows(k, i, {}, Local(s.Now(), {}));
    }

    method AllocRange(i: nat, size: Word, align: Word, flags: PageFlags, kind: AllocKind)
      returns (r: SpaceResult<Run>, ghost at: int)
      requires Valid() && i < |spaces|
      modifies this`rights, spaces[i], spaces[i].mapper, alloc, alloc.mem, alloc.bitmap
      modifies spaces[i].PoolFor(kind), spaces[i].PoolFor(kind).slots
      ensures !r.Stopped? ==> Valid() && Follows(old(Now()), Now())
      ensures Verdict(r, old(spaces[i].Now()), old(spaces[i].PoolFor(kind).Slots()), size, align, at)
      ensures r.Done? ==>
        && Partly(old(spaces[i].Now()), spaces[i].Now(), at, 0, size / PAGE_SIZE, flags)
        && rights[i].Of(kind) == old(rights[i].Of(kind)) + [r.value]
      ensures r.Failed? ==> rights[i].Of(kind) == old(rights[i].Of(kind))
      ensures r.Stopped? <==> Panics(AllocPages(i, size, align, flags, kind), old(Snap()))
      ensures !r.Stopped? ==> Obeys(AllocPages(i, size, align, flags, kind), old(Snap()), Snap())
    {
      hide KernelInv, FrameInv, TreeInv, Follows, Reach, Owns, Verdict, Evolved, Partly, AllocStep,
           GoodRange, RangeCoherent, Cached, Coherent, TableFrames, AddressSpace.PoolsValid, Obeys, AllocDoes, AllocPanics;
      ghost var k, s, rights0 := Now(), spaces[i], rights;
      EverySpaceValid(i);
      OthersApart(i);
      r, at := AllocOn(spaces[i], size, align, flags, kind);
      if r.Stopped? {
        return;
      }
      var rs := rights[i := rights[i].With(kind, rights[i].Of(kind) + (if r.Done? then [r.value] else []))];
      assert Wired(s, alloc, rs[i]);
      assert BuiltFor(rs);
      rights := rs;
      assert Trees(spaces) == k.spaces[i := s.mapper.space];
      WorkFollows(k, i, {}, Local(s.Now(), {}));
      AllocObeys(k, rights0, i, s.Now(), s.PoolFor(kind).live, size, align, flags, kind);
    }

    method FreeRange(i: nat, kind: AllocKind, j: nat) returns (r: SpaceResult<()>)
      requires Valid() && i < |spaces| && j < |rights[i].Of(kind)|
      modifies this`rights, spaces[i], spaces[i].mapper, alloc, alloc.mem, alloc.bitmap
      modifies spaces[i].PoolFor(kind), spaces[i].PoolFor(kind).slots
      ensures r.Stopped? <==> Panics(FreePages(i, kind, j), old(Snap()))
      ensures !r.Stopped? ==> Valid() && Follows(old(Now()), Now())
      ensures !r.Stopped? ==>
        var region := old(rights[i].Of(kind)[j]);
        && Shrunk(old(spaces[i].Now()), spaces[i].Now(), region.base, region.size / PAGE_SIZE)
        && rights[i].Of(kind) == Without(old(rights[i].Of(kind)), j)
        && Obeys(FreePages(i, kind, j), old(Snap()), Snap())
    {
      hide KernelInv, FrameInv, TreeInv, Follows, Reach, Owns, Shrunk, FreeStep,
           GoodRange, RangeCoherent, Cached, Coherent, Nodes, AddressSpace.PoolsValid, Without, Obeys, Starts, FreeOf;
      ghost var k, s, rights0 := Now(), spaces[i], rights;
      EverySpaceValid(i);
      OthersApart(i);
      SlotsOfPool(s, kind);
      r := spaces[i].UnmapAndDealloc(rights[i].Of(kind)[j], kind, j);
      if r.Stopped? {
        return;
      }
      var rs := rights[i := rights[i].With(kind, Without(rights[i].Of(kind), j))];
      assert Wired(s, alloc, rs[i]);
      assert BuiltFor(rs);
      rights := rs;
      assert Trees(spaces) == k.spaces[i := s.mapper.space];
      WorkFollows(k, i, {}, Local(s.Now(), {}));
      FreeObeys(k, rights0, i, s.Now(), kind, j);
    }

    /** Adds a space that shares no object with the others. */
    method Attach(s: AddressSpace)
      requires Built() && Wired(s, alloc, Rights([], []))
      requires forall o :: o in Parts(s) ==> o != this && o != alloc && o != alloc.mem && o != alloc.bitmap
      requires forall j :: 0 <= j < |spaces| ==> OtherThan(s, spaces[j]) && OtherThan(spaces[j], s)
      modifies this`spaces, this`rights, this`repr
      ensures Built() && spaces == old(spaces) + [s] && repr == old(repr) + Parts(s) && rights == old(rights) + [Rights([], [])]
    {
      hide AddressSpace.PoolsValid;
      spaces, rights, repr := spaces + [s], rights + [Rights([], [])], repr + Parts(s);
    }

    /** A new address space over a root frame from the free list; false is the panic of an empty one. */
    method Create() returns (ok: bool)
      requires Valid()
      modifies this`spaces, this`rights, this`repr, alloc, alloc.mem, alloc.bitmap
      ensures ok <==> old(alloc.stack) != []
      ensures ok ==> Valid() && Follows(old(Now()), Now())
      ensures ok ==> Obeys(CreateSpace, old(Snap()), Snap())
      ensures ok ==> old(repr) <= repr && fresh(repr - old(repr))
    {
      hide KernelInv, FrameInv, TreeInv, Follows, AddressSpace.PoolsValid, Owns, ZeroPage;
      ghost var k := Now();
      MemorySize(k);
      var r := NewKernel(alloc);
      if r.None? {
        return false;
      }
      ghost var root := k.stack[0];
      Attach(r.value);
      assert Trees(spaces) == k.spaces + [FreshSpace(root)];
      CreateFollows(k, Now(), root);
      ok := true;
    }

    /** The running kernel stores a word through a mapped address; anything else is a page fault. */
    method Store(i: nat, virt: Word, value: Word) returns (stored: bool)
      requires Valid() && i < |spaces|
      modifies alloc.mem
      ensures Valid() && Follows(old(Now()), Now())
      ensures stored <==> old(PageNode(virt) in spaces[i].mapper.space.leaves)
      ensures Obeys(StoreAt(i, virt, value), old(Snap()), Snap())
    {
      hide KernelInv, FrameInv, TreeInv, Follows, AddressSpace.PoolsValid, Owns, Translate, PageNode;
      EverySpaceValid(i);
      MemorySize(Now());
      FollowsNothing(Now());
      TranslateIsFlat(alloc.mem.pages, spaces[i].mapper.space, virt);
      var t := Translate(alloc.mem.pages, spaces[i].mapper.pml4, virt);
      if t.None? {
        return false;
      }
      var word := t.value.0 % PAGE_SIZE / 8;
      LeafIsWritable(Now(), i, PageNode(virt), virt, word, value);
      WriteTo(t.value.0 / PAGE_SIZE, word, value);
      stored := true;
    }

    lemma InFootprint(i: nat)
      requires Valid() && i < |spaces|
      ensures Parts(spaces[i]) <= Footprint()
    {}

    /** Commands on one space. */
    method PerformOn(c: Command, i: nat) returns (alive: bool)
      requires Valid() && i < |spaces|
      requires c.MapPage? || c.UnmapPage? || c.RemapPage? || c.AllocPages? || c.FreePages? || c.StoreAt?
      requires i == c.i
      modifies Footprint()
      ensures repr == old(repr)
      ensures alive <==> !Panics(c, old(Snap()))
      ensures alive ==> Valid() && Follows(old(Now()), Now()) && Obeys(c, old(Snap()), Snap())
    {
      hide Valid, Follows, Reach, Trees, MapStep, UnmapStep, RemapStep, AllocDoes, AllocPanics, IsCanonical, PageNode,
           SpaceStep, Verdict, Partly, Shrunk, Write, Enabled, Starts, FreeOf, Missing;
      FollowsNothing(Now());
      InFootprint(i);
      RightsMatch();
      alive := true;
      match c
      case MapPage(_, virt, frame, flags) =>
        if frame in hand {
          var r := Map(i, virt, frame, flags);
          alive := !r.MapPanic?;
        }
      case UnmapPage(_, virt) =>
        var r := Unmap(i, virt);
      case RemapPage(_, virt, flags) =>
        var r := Remap(i, virt, flags);
      case AllocPages(_, size, align, flags, kind) =>
        ghost var at;
        var r;
        r, at := AllocRange(i, size, align, flags, kind);
        alive := !r.Stopped?;
      case FreePages(_, kind, j) =>
        if j < |rights[i].Of(kind)| {
          var r := FreeRange(i, kind, j);
          alive := !r.Stopped?;
        }
      case StoreAt(_, virt, value) =>
        var stored := Store(i, virt, value);
    }

    /** Carries out one command; a command naming a frame, space or region its client does not have
        is refused. False is a panic. */
    method Perform(c: Command) returns (alive: bool)
      requires Valid()
      modifies Footprint()
      ensures alive ==> Valid() && Follows(old(Now()), Now()) && fresh(Footprint() - old(Footprint()))
      ensures alive <==> !Panics(c, old(Snap()))
      ensures alive ==> Obeys(c, old(Snap()), Snap())
    {
      hide Valid, Follows, Reach, MapStep, UnmapStep, RemapStep, AllocDoes, AllocPanics, IsCanonical, PageNode, SpaceStep,
           Write, Enabled, Starts, FreeOf, Missing, Shrunk, SameOutside;
      FollowsNothing(Now());
      alive := true;
      match c
      case TakeOne =>
        var f := Take();
      case GiveBack(f) =>
        if f in hand { Give(f); }
      case CreateSpace =>
        alive := Create();
      case WriteFrame(f, word, value) =>
        if f in hand {
          HandIsWritable(f, word, value);
          if word < WORDS_PER_PAGE { WriteTo(f, word, value); }
        }
      case _ =>
        if c.i < |spaces| { alive := PerformOn(c, c.i); }
    }

    /** Carries out any sequence of commands up to the first panic. Each state between two commands, and
        each state inside a command, belongs to one run of the kernel; `states` are those between the
        commands that completed. */
    method Execute(commands: seq<Command>) returns (done: nat, ghost states: seq<Snapshot>)
      requires Valid()
      modifies Footprint()
      ensures done <= |commands| && |states| == done + 1 && states[0] == old(Snap()) && Follows(states[0].k, states[done].k)
      ensures forall j :: 0 <= j < done ==>
        !Panics(commands[j], states[j]) && Obeys(commands[j], states[j], states[j + 1]) && Follows(states[j].k, states[j + 1].k)
      ensures done == |commands| ==> Valid() && states[done] == Snap()
      ensures done < |commands| ==> Panics(commands[done], states[done])
    {
      hide Valid, Follows, Trees, Obeys, Panics;
      FollowsNothing(Now());
      done, states := 0, [Snap()];
      while done < |commands|
        invariant done <= |commands| && Valid() && |states| == done + 1 && states[0] == old(Snap()) && states[done] == Snap()
        invariant Follows(states[0].k, states[done].k)
        invariant forall j :: 0 <= j < done ==>
          !Panics(commands[j], states[j]) && Obeys(commands[j], states[j], states[j + 1]) && Follows(states[j].k, states[j + 1].k)
        invariant fresh(Footprint() - old(Footprint()))
      {
        var alive := Perform(commands[done]);
        if !alive {
          return;
        }
        FollowsTrans(states[0].k, states[done].k, Now());
        states := states + [Snap()];
        done := done + 1;
      }
    }

    lemma RightsMatch()
      requires Valid()
      ensures |rights| == |spaces|
    {}

    lemma HandIsWritable(f: Frame, word: nat, value: Word)
      requires Valid() && f in hand
      ensures f in alloc.out && (Enabled(Now(), OwnerWrite(f, word, value)) <==> word < WORDS_PER_PAGE)
      ensures |Now().pages| == FRAME_COUNT
    {}
  }

  lemma CreateFollows(k: State, k': State, root: Frame)
    requires KernelInv(k) && k.stack != [] && root == k.stack[0]
    requires k' == State(k.pages[root := ZeroPage()], k.stack[1..], k.out + {root}, k.hand, k.spaces + [FreshSpace(root)])
    ensures KernelInv(k') && Follows(k, k')
  {
    hide KernelInv, Follows, ZeroPage;
    MemorySize(k);
    HeadIsNotHeld(k);
    var k1 := Next(k, Event.Take);
    FollowsStep(k, Event.Take, k1);
    assert k1.hand - {root} == k.hand;
    FollowsStep(k1, NewSpace(root), k');
    FollowsTrans(k, k1, k');
    FollowsKeeps(k, k');
  }

  lemma HeadIsNotHeld(k: State)
    requires KernelInv(k) && k.stack != []
    ensures k.stack[0] !in k.hand
  {
    assert k.stack[0] in k.stack;
  }

  lemma LeafIsWritable(k: State, i: nat, n: Node, virt: Word, word: nat, value: Word)
    requires KernelInv(k) && i < |k.spaces| && n in k.spaces[i].leaves && word < WORDS_PER_PAGE
    ensures var f := k.spaces[i].leaves[n].frame;
            (f * PAGE_SIZE + virt % PAGE_SIZE) / PAGE_SIZE == f && f in k.out && Enabled(k, OwnerWrite(f, word, value))
  {
    hide TreeInv, Translate;
    FrameOfAddress(k.spaces[i].leaves[n].frame, virt);
    LeafFrameOf(k.spaces[i], n);
    SpaceInOut(k, i);
  }

  /** Boots a machine from a memory map and carries out commands on it: at every state of the run,
      each donated frame is in exactly one place and memory that was not donated is untouched. */
  method BootAndExecute(mem: PhysicalMemory, es: seq<MemEntry>, commands: seq<Command>)
    returns (booted: bool, done: nat, ghost home: int, ghost size: int, ghost states: seq<Snapshot>)
    requires mem.Valid() && GoodMap(es)
    modifies mem
    ensures !booted <==> forall i, top: nat :: 0 <= i < |es| && es[i].usable && IsTop(es, top) ==> es[i].length < BitmapSize(top)
    ensures booted ==> done <= |commands| && |states| == done + 1 && Booted(states[0].k) && states[0].rights == []
    ensures booted ==> Donated(states[0].k) == Outside(UsableFrames(es, |es|), home, home + size)
    ensures booted ==> forall j :: 0 <= j < done ==> Obeys(commands[j], states[j], states[j + 1])
    ensures booted && done < |commands| ==> Panics(commands[done], states[done])
    ensures booted ==> Follows(states[0].k, states[done].k) && KernelInv(states[done].k)
    ensures booted ==> Donated(states[done].k) == Donated(states[0].k) && OutsideKept(states[0].k, states[done].k)
  {
    hide KernelInv, FrameInv, Follows, IsTop, BitmapSize, UsableFrames, Outside, GoodMap, KernelMachine.Valid,
         KernelMachine.Now, Donated, Obeys, Panics;
    var a;
    a, home, size := Boot.Init(mem, es);
    if a.None? {
      return false, 0, home, size, [];
    }
    var machine := new KernelMachine(a.value);
    done, states := machine.Execute(commands);
    BootedInv(states[0].k);
    FollowsKeeps(states[0].k, states[done].k);
    booted := true;
  }

  lemma BootedInv(k: State)
    requires Booted(k)
    ensures KernelInv(k)
  {}
}
