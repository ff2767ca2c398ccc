/** The x86_64 mapper: walks and edits the four-level tables in place, taking table frames from
    the frame allocator. */
module Mapper {
  import opened Addr
  import opened Entry
  import opened Frames
  import opened PageTables
  import opened PhysMem
  import opened Results
  import opened Steps

  datatype MapError = AlreadyMapped | FrameAllocationFailed | UnalignedAddress

  datatype UnmapError = NotMapped | UnalignedPage | HugePage

  /** `Mapped`, an error that hands the frame back, or the panic of an exhausted allocator. */
  datatype MapResult = Mapped | MapFailed(frame: Frame, error: MapError) | MapPanic

  datatype UnmapResult = Unmapped(frame: Frame) | UnmapFailed(error: UnmapError)

  datatype RemapResult = Remapped | RemapFailed(error: UnmapError)

  datatype WalkResult = Table(frame: Frame) | WalkFailed(error: MapError) | OutOfMemory

  /** The frames that hold the tables of a space. */
  ghost function TableFrames(sp: Space): set<Frame> { sp.tables.Values }

  /** `k` frames went from the free list to new tables; no page changed and no other frame was touched. */
  ghost predicate Grown(v: View, v': View, k: nat)
  {
    && k <= |v.stack| && v'.stack == v.stack[k..] && v'.out == v.out + Members(v.stack[..k])
    && v'.space.root == v.space.root && v'.space.leaves == v.space.leaves
    && (forall n :: n in v.space.tables ==> n in v'.space.tables && v'.space.tables[n] == v.space.tables[n])
    && TableFrames(v'.space) == TableFrames(v.space) + Members(v.stack[..k])
    && SameOutside(v.pages, v'.pages, TableFrames(v'.space))
  }

  ghost predicate SameOutside(m: Memory, m': Memory, fs: set<Frame>)
  {
    |m| == |m'| == FRAME_COUNT && forall f: Frame :: f !in fs ==> m'[f] == m[f]
  }

  /** The page of `virt` gets a leaf it did not have; the missing tables are created. */
  ghost predicate MapStep(v: View, v': View, virt: Word, l: Leaf)
  {
    && PageNode(virt) !in v.space.leaves
    && v'.space.leaves == v.space.leaves[PageNode(virt) := l]
    && Grown(v, v'.(space := v'.space.(leaves := v.space.leaves)), Missing(v.space, virt))
  }

  ghost predicate UnmapStep(v: View, v': View, virt: Word)
  {
    && v'.space == WithoutLeaf(v.space, PageNode(virt)) && v'.stack == v.stack && v'.out == v.out
    && SameOutside(v.pages, v'.pages, TableFrames(v.space))
  }

  ghost predicate RemapStep(v: View, v': View, virt: Word, flags: PageFlags)
  {
    && PageNode(virt) in v.space.leaves
    && v'.space == WithLeaf(v.space, PageNode(virt), Leaf(v.space.leaves[PageNode(virt)].frame, flags))
    && v'.stack == v.stack && v'.out == v.out
    && SameOutside(v.pages, v'.pages, TableFrames(v.space))
  }

  lemma GrownByNone(v: View)
    requires |v.pages| == FRAME_COUNT
    ensures Grown(v, v, 0)
  {
    assert v.stack[..0] == [] && v.stack[0..] == v.stack;
  }

  lemma MembersConcat(a: seq<Frame>, b: seq<Frame>)
    ensures Members(a + b) == Members(a) + Members(b)
  {}

  lemma GrownStack(v: View, v': View, k: nat)
    requires Grown(v, v', k)
    ensures |v'.stack| == |v.stack| - k && |v'.pages| == FRAME_COUNT
  {}

  lemma GrownTrans(u: View, v: View, w: View, j: nat, k: nat)
    requires Grown(u, v, j) && Grown(v, w, k)
    ensures Grown(u, w, j + k)
  {
    assert u.stack[..j + k] == u.stack[..j] + v.stack[..k];
    MembersConcat(u.stack[..j], v.stack[..k]);
    assert w.stack == u.stack[j + k..];
  }

  lemma GrownByOne(v: View, v': View, n: Node)
    requires |v.pages| == FRAME_COUNT && v.stack != [] && n !in v.space.tables
    requires v'.stack == v.stack[1..] && v'.out == v.out + {v.stack[0]}
    requires v'.space == WithTable(v.space, n, v.stack[0])
    requires SameOutside(v.pages, v'.pages, TableFrames(v.space) + {v.stack[0]})
    ensures Grown(v, v', 1)
  {
    assert v.stack[..1] == [v.stack[0]];
    assert Members([v.stack[0]]) == {v.stack[0]};
    ValuesAfterAdd(v.space.tables, n, v.stack[0]);
  }

  lemma ValuesAfterAdd(t: map<Node, Frame>, n: Node, f: Frame)
    requires n !in t
    ensures t[n := f].Values == t.Values + {f}
  {
    var t' := t[n := f];
    forall x ensures x in t'.Values <==> x in t.Values || x == f {
      if x in t.Values {
        var k :| k in t && t[k] == x;
        assert t'[k] == x;
      }
      if x == f { assert t'[n] == f; }
    }
  }

  /** How many tables on the way to `v` do not exist yet. */
  ghost function Missing(sp: Space, v: Word): nat
  {
    if L1Node(v) in sp.tables then 0
    else if L2Node(v) in sp.tables then 1
    else if L3Node(v) in sp.tables then 2
    else 3
  }

  /** The tables below the root on the way to `v`. */
  ghost function Path(v: Word): set<Node>
  {
    {L3Node(v), L2Node(v), L1Node(v)}
  }

  lemma PathAdds(keys: set<Node>, v: Word)
    ensures keys + {L3Node(v)} + {L2Node(v)} + {L1Node(v)} == keys + Path(v)
  {}

  lemma NodesOnTheWay(v: Word)
    ensures L3Node(v) == Child(Root, IndexOf(4, v)) && L2Node(v) == Child(L3Node(v), IndexOf(3, v))
    ensures L1Node(v) == Child(L2Node(v), IndexOf(2, v))
    ensures L3Node(v) != L2Node(v) && L3Node(v) != L1Node(v) && L2Node(v) != L1Node(v)
  {
    DepthOfPage(v);
  }

  /** The tables missing at each level add up. */
  lemma MissingAdds(m: Memory, sp: Space, v: Word)
    requires TreeInv(m, sp)
    ensures Missing(sp, v) == (if L3Node(v) in sp.tables then 0 else 1) + (if L2Node(v) in sp.tables then 0 else 1)
                            + (if L1Node(v) in sp.tables then 0 else 1)
    ensures Root in sp.tables && sp.tables[Root] == sp.root
  {
    MappedHasTable(m, sp, v);
  }

  lemma BuildsThenSets(u: View, v: View, w: View, n: Node, l: Leaf)
    requires Builds(u, v) && HasEntry(v, n) && Depth(n) == 4 && n !in v.space.leaves
    requires w == View(Put(v.pages, v.space, n, LeafWord(l)), v.stack, v.out, WithLeaf(v.space, n, l))
    ensures Reach(Local(u, {l.frame}), Local(w, {}))
  {
    hide Reach, Put, LeafWord;
    var held := {l.frame};
    ReachOne(Local(v, held), SetPage(n, l));
    assert held - {l.frame} == {};
    ReachTrans(Local(u, held), Local(v, held), Local(w, {}));
  }

  lemma Clears(v: View, w: View, n: Node)
    requires HasEntry(v, n) && n in v.space.leaves
    requires w == View(Put(v.pages, v.space, n, 0), v.stack, v.out, WithoutLeaf(v.space, n))
    ensures Reach(Local(v, {}), Local(w, {v.space.leaves[n].frame}))
  {
    hide Reach, Put;
    ReachOne(Local(v, {}), ClearPage(n));
    assert {} + {v.space.leaves[n].frame} == {v.space.leaves[n].frame};
  }

  lemma SetsFlags(v: View, w: View, n: Node, flags: PageFlags)
    requires HasEntry(v, n) && n in v.space.leaves
    requires var l := Leaf(v.space.leaves[n].frame, flags);
             w == View(Put(v.pages, v.space, n, LeafWord(l)), v.stack, v.out, WithLeaf(v.space, n, l))
    ensures Worked(v, w)
  {
    hide Reach, Put, LeafWord;
    ReachOne(Local(v, {}), SetFlags(n, flags));
  }

  class PageTableMapper {
    const alloc: BitmapAllocator
    const pml4: Frame
    ghost var space: Space

    ghost predicate Valid()
      reads this, alloc, alloc.mem, alloc.bitmap
    {
      && alloc.Valid() && space.root == pml4
      && TreeInv(alloc.mem.pages, space) && TableFrames(space) <= alloc.out
    }

    ghost function Now(): View
      reads this, alloc, alloc.mem
    {
      View(alloc.mem.pages, alloc.stack, alloc.out, space)
    }

    /** A mapper over a cleared root table in a frame the caller gives up. */
    constructor (alloc: BitmapAllocator, root: Frame)
      requires alloc.Valid() && root in alloc.out
      modifies alloc.mem
      ensures this.alloc == alloc && pml4 == root && Valid() && space == FreshSpace(root)
      ensures alloc.mem.pages == old(alloc.mem.pages)[root := ZeroPage()]
    {
      this.alloc, pml4 := alloc, root;
      space := FreshSpace(root);
      new;
      hide FrameInv, TreeInv;
      FreshFrame(alloc.mem.pages, alloc.bitmap[..], alloc.freeListHead, alloc.free, alloc.stack, alloc.out);
      ghost var m := alloc.mem.pages;
      alloc.mem.Zero(root);
      InvariantIgnoresOwnedFrames(m, alloc.mem.pages, alloc.bitmap[..], alloc.freeListHead, alloc.free, alloc.stack, alloc.out);
      FreshTree(m, root);
    }

    /** Takes a frame off the free list, clears it and links it in as the table of node `n`. */
    method CreateTable(table: Frame, i: nat, ghost n: Node) returns (r: Option<Frame>)
      requires Valid() && n.Child? && n.parent in space.tables && space.tables[n.parent] == table
      requires n.index == i < WORDS_PER_PAGE && Depth(n) <= 3 && n !in space.tables
      modifies this, alloc, alloc.mem, alloc.bitmap
      ensures r.None? <==> old(alloc.stack) == []
      ensures r.Some? ==>
        && Valid() && r.value == old(alloc.stack)[0]
        && space == WithTable(old(space), n, r.value) && Grown(old(Now()), Now(), 1) && Builds(old(Now()), Now())
    {
      hide FrameInv, TreeInv, Pack, Builds;
      FreshFrame(alloc.mem.pages, alloc.bitmap[..], alloc.freeListHead, alloc.free, alloc.stack, alloc.out);
      r := alloc.Allocate();
      if r.Some? {
        var f := r.value;
        ghost var m := alloc.mem.pages;
        AddTableKeepsTree(m, space, n, f);
        alloc.mem.Zero(f);
        alloc.mem.Store(table, i, Pack(f, TABLE_FLAGS));
        assert space.tables[n.parent] in TableFrames(space);
        InvariantIgnoresOwnedFrames(m, alloc.mem.pages, alloc.bitmap[..], alloc.freeListHead, alloc.free, alloc.stack, alloc.out);
        space := WithTable(space, n, f);
        ValuesAfterAdd(old(space).tables, n, f);
        GrownByOne(old(Now()), Now(), n);
        BuildsTable(old(Now()), n, Now());
      }
    }

    /** The table behind entry `i` of `table`, created if it may be. */
    method NextTable(table: Frame, i: nat, create: bool, ghost n: Node) returns (r: WalkResult)
      requires Valid() && n.Child? && n.parent in space.tables && space.tables[n.parent] == table
      requires n.index == i < WORDS_PER_PAGE && Depth(n) <= 3
      modifies this, alloc, alloc.mem, alloc.bitmap
      ensures r.Table? ==> Valid() && n in space.tables && space.tables[n] == r.frame
      ensures r.Table? ==> space.tables.Keys == old(space).tables.Keys + {n} && Builds(old(Now()), Now())
      ensures n in old(space).tables ==> r.Table? && Now() == old(Now())
      ensures n !in old(space).tables && !create ==> r == WalkFailed(FrameAllocationFailed)
      ensures r.WalkFailed? ==> Valid() && n !in old(space).tables && !create && Now() == old(Now())
      ensures r.OutOfMemory? <==> n !in old(space).tables && create && old(alloc.stack) == []
      ensures r.Table? && n !in old(space).tables ==>
        space == WithTable(old(space), n, r.frame) && Grown(old(Now()), Now(), 1)
    {
      hide FrameInv, TreeInv, IsPresent, IsHuge, FrameOf, Builds;
      BuildsNothing(Now());
      FreshFrame(alloc.mem.pages, alloc.bitmap[..], alloc.freeListHead, alloc.free, alloc.stack, alloc.out);
      TableEntryShows(alloc.mem.pages, space, n.parent, i);
      var e := alloc.mem.pages[table][i];
      if !IsPresent(e) {
        if !create {
          return WalkFailed(FrameAllocationFailed);
        }
        var f := CreateTable(table, i, n);
        if f.None? {
          return OutOfMemory;
        }
        FreshFrame(alloc.mem.pages, alloc.bitmap[..], alloc.freeListHead, alloc.free, alloc.stack, alloc.out);
        TableEntryShows(alloc.mem.pages, space, n.parent, i);
        e := alloc.mem.pages[table][i];
      }
      if IsHuge(e) {
        return WalkFailed(AlreadyMapped);
      }
      if FrameOf(e).None? {
        return WalkFailed(FrameAllocationFailed);
      }
      r := Table(FrameOf(e).value);
    }

    /** The level-1 table for `virt`, with the missing tables created if `create`. */
    method WalkOrCreate(virt: Word, create: bool) returns (r: WalkResult)
      requires Valid()
      modifies this, alloc, alloc.mem, alloc.bitmap
      ensures r.Table? ==>
        && Valid() && L1Node(virt) in space.tables && space.tables[L1Node(virt)] == r.frame
        && Grown(old(Now()), Now(), Missing(old(space), virt))
        && space.tables.Keys == old(space).tables.Keys + Path(virt) && Builds(old(Now()), Now())
      ensures Missing(old(space), virt) == 0 ==> r.Table? && Now() == old(Now())
      ensures r.WalkFailed? <==> !create && Missing(old(space), virt) > 0
      ensures r.WalkFailed? ==> Valid() && Now() == old(Now())
      ensures r.OutOfMemory? <==> create && Missing(old(space), virt) > |old(alloc.stack)|
    {
      hide FrameInv, TreeInv, IndexOf, Grown, Path, L1Node, L2Node, L3Node, Missing, Builds;
      NodesOnTheWay(virt);
      PathAdds(space.tables.Keys, virt);
      IndexIsField(4, virt);
      IndexIsField(3, virt);
      IndexIsField(2, virt);
      DepthOfPage(virt);
      MappedHasTable(alloc.mem.pages, space, virt);
      MissingAdds(alloc.mem.pages, space, virt);
      FreshFrame(alloc.mem.pages, alloc.bitmap[..], alloc.freeListHead, alloc.free, alloc.stack, alloc.out);
      ghost var v0 := Now();
      GrownByNone(v0);
      r := NextTable(pml4, IndexOf(4, virt), create, L3Node(virt));
      if !r.Table? { return; }
      ghost var v1, k1 := Now(), if L3Node(virt) in v0.space.tables then 0 else 1;
      assert Grown(v0, v1, k1);
      GrownStack(v0, v1, k1);
      GrownByNone(v1);
      r := NextTable(r.frame, IndexOf(3, virt), create, L2Node(virt));
      if !r.Table? { return; }
      ghost var v2, k2 := Now(), if L2Node(virt) in v1.space.tables then 0 else 1;
      assert Grown(v1, v2, k2);
      GrownTrans(v0, v1, v2, k1, k2);
      BuildsTrans(v0, v1, v2);
      GrownStack(v0, v2, k1 + k2);
      GrownByNone(v2);
      r := NextTable(r.frame, IndexOf(2, virt), create, L1Node(virt));
      if !r.Table? { return; }
      ghost var k3 := if L1Node(virt) in v2.space.tables then 0 else 1;
      GrownTrans(v0, v2, Now(), k1 + k2, k3);
      BuildsTrans(v0, v2, Now());
    }

    method Map(virt: Word, frame: Frame, flags: PageFlags) returns (r: MapResult)
      requires Valid()
      modifies this, alloc, alloc.mem, alloc.bitmap
      ensures r == MapFailed(frame, UnalignedAddress) <==> virt % PAGE_SIZE != 0 || !IsCanonical(virt)
      ensures r == MapFailed(frame, AlreadyMapped)
        <==> virt % PAGE_SIZE == 0 && IsCanonical(virt) && PageNode(virt) in old(space).leaves
      ensures r.MapPanic?
        <==> virt % PAGE_SIZE == 0 && IsCanonical(virt) && Missing(old(space), virt) > |old(alloc.stack)|
      ensures r.MapFailed? ==> Valid() && Now() == old(Now()) && r.frame == frame && r.error != FrameAllocationFailed
      ensures r.Mapped? ==> Valid() && MapStep(old(Now()), Now(), virt, Leaf(frame, flags))
      ensures r.Mapped? ==> space.tables.Keys == old(space).tables.Keys + Path(virt)
      ensures r.Mapped? ==> Reach(Local(old(Now()), {frame}), Local(Now(), {}))
    {
      hide FrameInv, TreeInv, IndexOf, IsPresent, Pack, EntryFlags, IsCanonical, Builds, Reach;
      PageIsPowerOfTwo();
      IsAlignedIsDivisible(virt, PAGE_SIZE);
      if !IsAligned(virt, PAGE_SIZE) {
        return MapFailed(frame, UnalignedAddress);
      }
      if !IsCanonical(virt) {
        return MapFailed(frame, UnalignedAddress);
      }
      MappedHasTable(alloc.mem.pages, space, virt);
      var walk := WalkOrCreate(virt, true);
      match walk {
        case OutOfMemory => return MapPanic;
        case WalkFailed(e) => return MapFailed(frame, e);
        case Table(_) =>
      }
      FreshFrame(alloc.mem.pages, alloc.bitmap[..], alloc.freeListHead, alloc.free, alloc.stack, alloc.out);
      IndexIsField(1, virt);
      DepthOfPage(virt);
      PageEntryShows(alloc.mem.pages, space, L1Node(virt), IndexOf(1, virt));
      if IsPresent(alloc.mem.pages[walk.frame][IndexOf(1, virt)]) {
        return MapFailed(frame, AlreadyMapped);
      }
      ghost var v := Now();
      SetLeaf(walk.frame, virt, Leaf(frame, flags));
      BuildsThenSets(old(Now()), v, Now(), PageNode(virt), Leaf(frame, flags));
      r := Mapped;
    }

    /** Stores a leaf entry. */
    method SetLeaf(table: Frame, virt: Word, l: Leaf)
      requires Valid() && L1Node(virt) in space.tables && space.tables[L1Node(virt)] == table
      modifies this, alloc.mem
      ensures Valid() && space == WithLeaf(old(space), PageNode(virt), l)
      ensures alloc.stack == old(alloc.stack) && alloc.out == old(alloc.out)
      ensures SameOutside(old(alloc.mem.pages), alloc.mem.pages, TableFrames(old(space)))
      ensures HasEntry(old(Now()), PageNode(virt)) && Depth(PageNode(virt)) == 4
      ensures alloc.mem.pages == Put(old(alloc.mem.pages), old(space), PageNode(virt), LeafWord(l))
    {
      hide FrameInv, TreeInv, IndexOf, Pack, EntryFlags;
      FreshFrame(alloc.mem.pages, alloc.bitmap[..], alloc.freeListHead, alloc.free, alloc.stack, alloc.out);
      IndexIsField(1, virt);
      DepthOfPage(virt);
      SetLeafKeepsTree(alloc.mem.pages, space, PageNode(virt), l);
      assert table in TableFrames(space);
      ghost var m := alloc.mem.pages;
      alloc.mem.Store(table, IndexOf(1, virt), Pack(l.frame, EntryFlags(l.flags)));
      InvariantIgnoresOwnedFrames(m, alloc.mem.pages, alloc.bitmap[..], alloc.freeListHead, alloc.free, alloc.stack, alloc.out);
      space := WithLeaf(space, PageNode(virt), l);
    }

    method ClearLeaf(table: Frame, virt: Word)
      requires Valid() && L1Node(virt) in space.tables && space.tables[L1Node(virt)] == table
      requires PageNode(virt) in space.leaves
      modifies this, alloc.mem
      ensures Valid() && space == WithoutLeaf(old(space), PageNode(virt))
      ensures alloc.stack == old(alloc.stack) && alloc.out == old(alloc.out)
      ensures SameOutside(old(alloc.mem.pages), alloc.mem.pages, TableFrames(old(space)))
      ensures HasEntry(old(Now()), PageNode(virt))
      ensures alloc.mem.pages == Put(old(alloc.mem.pages), old(space), PageNode(virt), 0)
    {
      hide FrameInv, TreeInv, IndexOf;
      FreshFrame(alloc.mem.pages, alloc.bitmap[..], alloc.freeListHead, alloc.free, alloc.stack, alloc.out);
      IndexIsField(1, virt);
      ClearLeafKeepsTree(alloc.mem.pages, space, PageNode(virt));
      assert table in TableFrames(space);
      ghost var m := alloc.mem.pages;
      alloc.mem.Store(table, IndexOf(1, virt), 0);
      InvariantIgnoresOwnedFrames(m, alloc.mem.pages, alloc.bitmap[..], alloc.freeListHead, alloc.free, alloc.stack, alloc.out);
      space := WithoutLeaf(space, PageNode(virt));
    }

    /** One level of the walk in `unmap`. */
    method Descend(table: Frame, i: nat, mayBeHuge: bool, ghost n: Node) returns (r: UnmapResult)
      requires Valid() && n.Child? && n.parent in space.tables && space.tables[n.parent] == table
      requires n.index == i < WORDS_PER_PAGE && Depth(n) <= 3
      ensures r == if n in space.tables then Unmapped(space.tables[n]) else UnmapFailed(NotMapped)
    {
      hide FrameInv, TreeInv, IsPresent, IsHuge, FrameOf;
      FreshFrame(alloc.mem.pages, alloc.bitmap[..], alloc.freeListHead, alloc.free, alloc.stack, alloc.out);
      TableEntryShows(alloc.mem.pages, space, n.parent, i);
      var e := alloc.mem.pages[table][i];
      if !IsPresent(e) {
        return UnmapFailed(NotMapped);
      }
      if mayBeHuge && IsHuge(e) {
        return UnmapFailed(HugePage);
      }
      r := Unmapped(FrameOf(e).value);
    }

    method Unmap(virt: Word) returns (r: UnmapResult)
      requires Valid()
      modifies this, alloc.mem
      ensures Valid()
      ensures r == UnmapFailed(UnalignedPage) <==> virt % PAGE_SIZE != 0
      ensures r == UnmapFailed(NotMapped) <==> virt % PAGE_SIZE == 0 && PageNode(virt) !in old(space).leaves
      ensures r.UnmapFailed? ==> Now() == old(Now()) && r.error != HugePage
      ensures r.Unmapped? ==>
        && PageNode(virt) in old(space).leaves && r.frame == old(space).leaves[PageNode(virt)].frame
        && UnmapStep(old(Now()), Now(), virt) && Reach(Local(old(Now()), {}), Local(Now(), {r.frame}))
    {
      hide FrameInv, TreeInv, IndexOf, IsPresent, FrameOf, Reach, Put;
      PageIsPowerOfTwo();
      IsAlignedIsDivisible(virt, PAGE_SIZE);
      if !IsAligned(virt, PAGE_SIZE) {
        return UnmapFailed(UnalignedPage);
      }
      IndexIsField(4, virt);
      IndexIsField(3, virt);
      IndexIsField(2, virt);
      IndexIsField(1, virt);
      DepthOfPage(virt);
      MappedHasTable(alloc.mem.pages, space, virt);
      r := Descend(pml4, IndexOf(4, virt), false, L3Node(virt));
      if r.UnmapFailed? { return; }
      r := Descend(r.frame, IndexOf(3, virt), true, L2Node(virt));
      if r.UnmapFailed? { return; }
      r := Descend(r.frame, IndexOf(2, virt), true, L1Node(virt));
      if r.UnmapFailed? { return; }
      FreshFrame(alloc.mem.pages, alloc.bitmap[..], alloc.freeListHead, alloc.free, alloc.stack, alloc.out);
      PageEntryShows(alloc.mem.pages, space, L1Node(virt), IndexOf(1, virt));
      var e := alloc.mem.pages[r.frame][IndexOf(1, virt)];
      if !IsPresent(e) {
        return UnmapFailed(NotMapped);
      }
      var frame := FrameOf(e).value;
      ClearLeaf(r.frame, virt);
      Clears(old(Now()), Now(), PageNode(virt));
      r := Unmapped(frame);
    }

    method Remap(virt: Word, flags: PageFlags) returns (r: RemapResult)
      requires Valid()
      modifies this, alloc, alloc.mem, alloc.bitmap
      ensures Valid()
      ensures r == RemapFailed(UnalignedPage) <==> virt % PAGE_SIZE != 0
      ensures r == RemapFailed(NotMapped) <==> virt % PAGE_SIZE == 0 && PageNode(virt) !in old(space).leaves
      ensures r.RemapFailed? ==> Now() == old(Now()) && r.error != HugePage
      ensures r.Remapped? ==> PageNode(virt) in old(space).leaves && RemapStep(old(Now()), Now(), virt, flags)
      ensures r.Remapped? ==> Worked(old(Now()), Now())
    {
      hide FrameInv, TreeInv, IndexOf, IsPresent, IsHuge, FrameOf, Grown, Worked, Put, LeafWord;
      PageIsPowerOfTwo();
      IsAlignedIsDivisible(virt, PAGE_SIZE);
      if !IsAligned(virt, PAGE_SIZE) {
        return RemapFailed(UnalignedPage);
      }
      MappedHasTable(alloc.mem.pages, space, virt);
      var walk := WalkOrCreate(virt, false);
      if walk.WalkFailed? {
        return RemapFailed(NotMapped);
      }
      FreshFrame(alloc.mem.pages, alloc.bitmap[..], alloc.freeListHead, alloc.free, alloc.stack, alloc.out);
      IndexIsField(1, virt);
      DepthOfPage(virt);
      PageEntryShows(alloc.mem.pages, space, L1Node(virt), IndexOf(1, virt));
      var e := alloc.mem.pages[walk.frame][IndexOf(1, virt)];
      if !IsPresent(e) {
        return RemapFailed(NotMapped);
      }
      if IsHuge(e) {
        return RemapFailed(HugePage);
      }
      SetLeaf(walk.frame, virt, Leaf(FrameOf(e).value, flags));
      SetsFlags(old(Now()), Now(), PageNode(virt), flags);
      r := Remapped;
    }
  }

  /** An address space with an empty root table. */
  function FreshSpace(root: Frame): Space { Space(root, map[Root := root], map[]) }

  lemma FreshTree(m: Memory, root: Frame)
    requires |m| == FRAME_COUNT
    ensures TreeInv(m[root := ZeroPage()], FreshSpace(root)) && TableFrames(FreshSpace(root)) == {root}
  {
    var m', sp := m[root := ZeroPage()], FreshSpace(root);
    forall n, i | n in sp.tables && 0 <= i < WORDS_PER_PAGE ensures EntryAt(m', sp, n, i) {
    }
  }

  /** The first frame of the free list is not handed out. */
  lemma FreshFrame(m: Memory, bits: seq<Byte>, head: int, free: int, stack: seq<Frame>, out: set<Frame>)
    requires FrameInv(m, bits, head, free, stack, out)
    ensures |m| == FRAME_COUNT
    ensures stack != [] ==> stack[0] !in out
    ensures forall f :: f in stack ==> f !in out
  {}

  /** A mapped page has all its tables. */
  lemma MappedHasTable(m: Memory, sp: Space, v: Word)
    requires TreeInv(m, sp)
    ensures PageNode(v) in sp.leaves ==> L1Node(v) in sp.tables
    ensures Root in sp.tables && sp.tables[Root] == sp.root
    ensures L1Node(v) in sp.tables ==> L2Node(v) in sp.tables
    ensures L2Node(v) in sp.tables ==> L3Node(v) in sp.tables
  {}
}
