/** What each of the smallest changes does to the soundness of a space and to who holds a frame. */
module Moves {
  import opened Addr
  import opened Batch
  import opened Entry
  import opened Frames
  import opened Mapper
  import opened Ownership
  import opened PageTables
  import opened PhysMem
  import opened Steps

  /** The space is sound and the operation holds frames that are not the space's. */
  ghost predicate SoundLocal(a: Local) { Sound(a.v) && a.held <= Others(a.v) }

  /** Outstanding frames held neither by the space nor by the operation. */
  ghost function Foreign(a: Local): set<Frame> { Others(a.v) - a.held }

  /** Memory is the same on frames of others and on frames outside the allocator. */
  ghost predicate Unwritten(a: Local, b: Local)
  {
    && |a.v.pages| == |b.v.pages| == FRAME_COUNT
    && forall f: Frame :: f in Foreign(a) || f !in DonatedFrames(a.v) ==> b.v.pages[f] == a.v.pages[f]
  }

  ghost predicate Moved(a: Local, b: Local)
  {
    SoundLocal(b) && Foreign(b) == Foreign(a) && DonatedFrames(b.v) == DonatedFrames(a.v) && Unwritten(a, b)
  }

  lemma WrittenAre(a: Local, b: Local, written: set<Frame>)
    requires SameOutside(a.v.pages, b.v.pages, written)
    requires written <= DonatedFrames(a.v) && written !! Foreign(a)
    ensures Unwritten(a, b)
  {
    hide DonatedFrames, Others;
  }

  lemma PopMoves(a: Local)
    requires SoundLocal(a) && Legal(a, PopFree)
    ensures Moved(a, After(a, PopFree))
  {
    hide TreeInv, Owns, Owned, Members;
    var b := After(a, PopFree);
    TakeMovesFrame(a.v, b.v);
  }

  lemma PushMoves(a: Local, f: Frame, link: Word)
    requires SoundLocal(a) && Legal(a, PushFree(f, link))
    ensures Moved(a, After(a, PushFree(f, link)))
  {
    hide TreeInv, Owns, Owned, Members, Write;
    var b := After(a, PushFree(f, link));
    assert GiveStep(a.v, b.v, f);
    GiveMovesFrame(a.v, b.v, f);
    WrittenAre(a, b, {f});
  }

  /** The table of an entry belongs to the space. */
  lemma EntryTable(a: Local, n: Node)
    requires SoundLocal(a) && HasEntry(a.v, n)
    ensures var t := a.v.space.tables[n.parent];
            t in TableFrames(a.v.space) && t in a.v.out && t !in Foreign(a) && t in DonatedFrames(a.v)
  {
    hide TreeInv;
    assert a.v.space.tables[n.parent] in TableFrames(a.v.space);
  }

  lemma AddTableMoves(a: Local, n: Node)
    requires SoundLocal(a) && Legal(a, AddTable(n))
    ensures Moved(a, After(a, AddTable(n)))
  {
    hide TreeInv, Pack, Write, ZeroPage;
    var b, f := After(a, AddTable(n)), a.v.stack[0];
    EntryTable(a, n);
    AddTableKeepsTree(a.v.pages, a.v.space, n, f);
    AddTableOwns(a.v, b.v, n, f);
    assert SameOutside(a.v.pages, b.v.pages, {f, a.v.space.tables[n.parent]});
    WrittenAre(a, b, {f, a.v.space.tables[n.parent]});
  }

  lemma AddTableOwns(v: View, v': View, n: Node, f: Frame)
    requires StackOk(v) && Owns(v.out, v.space) && v.stack != [] && f == v.stack[0] && n !in v.space.tables
    requires v'.stack == v.stack[1..] && v'.out == v.out + {f} && v'.space == WithTable(v.space, n, f)
    requires |v'.pages| == FRAME_COUNT
    ensures StackOk(v') && Owns(v'.out, v'.space)
    ensures Others(v') == Others(v) && DonatedFrames(v') == DonatedFrames(v) && f !in v.out && f in DonatedFrames(v)
  {
    TakenWereFree(v, 1);
    assert v.stack[..1] == [f];
    ValuesAfterAdd(v.space.tables, n, f);
    assert LeafFrames(v'.space) == LeafFrames(v.space);
    OwnedIsOut(v.out, v.space);
  }

  lemma SetPageMoves(a: Local, n: Node, l: Leaf)
    requires SoundLocal(a) && Legal(a, SetPage(n, l))
    ensures Moved(a, After(a, SetPage(n, l)))
  {
    hide TreeInv, Pack, Write, EntryFlags;
    var b := After(a, SetPage(n, l));
    EntryTable(a, n);
    SetLeafKeepsTree(a.v.pages, a.v.space, n, l);
    SetPageOwns(a.v.out, a.v.space, n, l);
    WrittenAre(a, b, {a.v.space.tables[n.parent]});
  }

  lemma SetPageOwns(out: set<Frame>, sp: Space, n: Node, l: Leaf)
    requires Owns(out, sp) && n !in sp.leaves && l.frame in out && l.frame !in Owned(sp)
    ensures Owns(out, WithLeaf(sp, n, l)) && Owned(WithLeaf(sp, n, l)) == Owned(sp) + {l.frame}
  {
    LeafFramesAfterSet(sp, n, l);
    forall k | k in sp.leaves ensures sp.leaves[k].frame != l.frame { LeafFrameOf(sp, k); }
  }

  lemma ClearPageMoves(a: Local, n: Node)
    requires SoundLocal(a) && Legal(a, ClearPage(n))
    ensures Moved(a, After(a, ClearPage(n)))
  {
    hide TreeInv, Pack, Write;
    var b := After(a, ClearPage(n));
    EntryTable(a, n);
    ClearLeafKeepsTree(a.v.pages, a.v.space, n);
    ClearPageOwns(a.v.out, a.v.space, n);
    WrittenAre(a, b, {a.v.space.tables[n.parent]});
  }

  lemma ClearPageOwns(out: set<Frame>, sp: Space, n: Node)
    requires Owns(out, sp) && n in sp.leaves
    ensures Owns(out, WithoutLeaf(sp, n)) && Owned(WithoutLeaf(sp, n)) == Owned(sp) - {sp.leaves[n].frame}
    ensures sp.leaves[n].frame in out && sp.leaves[n].frame in Owned(sp)
  {
    LeafFramesAfterClear(sp, n);
    LeafFrameOf(sp, n);
  }

  lemma SetFlagsMoves(a: Local, n: Node, flags: PageFlags)
    requires SoundLocal(a) && Legal(a, SetFlags(n, flags))
    ensures Moved(a, After(a, SetFlags(n, flags)))
  {
    hide TreeInv, Pack, Write, EntryFlags;
    var b, l := After(a, SetFlags(n, flags)), Leaf(a.v.space.leaves[n].frame, flags);
    EntryTable(a, n);
    LeafDepth(a.v.pages, a.v.space, n);
    SetLeafKeepsTree(a.v.pages, a.v.space, n, l);
    SetFlagsOwns(a.v.out, a.v.space, n, l);
    WrittenAre(a, b, {a.v.space.tables[n.parent]});
  }

  lemma LeafDepth(m: Memory, sp: Space, n: Node)
    requires TreeInv(m, sp) && n in sp.leaves
    ensures Depth(n) == 4
  {}

  lemma SetFlagsOwns(out: set<Frame>, sp: Space, n: Node, l: Leaf)
    requires Owns(out, sp) && n in sp.leaves && l.frame == sp.leaves[n].frame
    ensures Owns(out, WithLeaf(sp, n, l)) && Owned(WithLeaf(sp, n, l)) == Owned(sp)
  {
    var sp' := WithLeaf(sp, n, l);
    forall f ensures f in LeafFrames(sp') <==> f in LeafFrames(sp) {
      if f in LeafFrames(sp) {
        var k :| k in sp.leaves && sp.leaves[k].frame == f;
        assert sp'.leaves[k].frame == f;
      }
      if f in LeafFrames(sp') {
        var k :| k in sp'.leaves && sp'.leaves[k].frame == f;
        assert sp.leaves[k].frame == f;
      }
    }
  }

  /** Every change keeps the space sound, moves frames only between the free list, the space and the
      operation, and writes no frame of anyone else. */
  lemma PrimMoves(a: Local, p: Prim)
    requires SoundLocal(a) && Legal(a, p)
    ensures Moved(a, After(a, p))
  {
    hide SoundLocal, Moved;
    match p
    case PopFree => PopMoves(a);
    case PushFree(f, link) => PushMoves(a, f, link);
    case AddTable(n) => AddTableMoves(a, n);
    case SetPage(n, l) => SetPageMoves(a, n, l);
    case ClearPage(n) => ClearPageMoves(a, n);
    case SetFlags(n, flags) => SetFlagsMoves(a, n, flags);
  }

  /** Any sequence of changes does the same. */
  lemma {:induction false} RunMoves(a: Local, ps: seq<Prim>, b: Local)
    requires SoundLocal(a) && Leads(a, ps, b)
    ensures Moved(a, b)
    decreases |ps|
  {
    hide Legal, After, Sound, Others, DonatedFrames;
    if ps != [] {
      PrimMoves(a, ps[0]);
      RunMoves(After(a, ps[0]), ps[1..], b);
    } else {
      SoundSize(a.v);
    }
  }

  lemma SoundSize(v: View)
    requires Sound(v)
    ensures |v.pages| == FRAME_COUNT
  {}

  /** An operation that holds nothing before and after leaves all other holders and all memory that is
      not its own as they were, whatever sequence of changes it made. */
  lemma WorkedMoves(v: View, v': View)
    requires Sound(v) && Worked(v, v')
    ensures Sound(v') && Others(v') == Others(v) && DonatedFrames(v') == DonatedFrames(v)
    ensures |v.pages| == |v'.pages| == FRAME_COUNT
    ensures forall f: Frame :: f in Others(v) || f !in DonatedFrames(v) ==> v'.pages[f] == v.pages[f]
  {
    hide Sound, Others, DonatedFrames, Leads;
    var a, b := Local(v, {}), Local(v', {});
    var ps :| Leads(a, ps, b);
    RunMoves(a, ps, b);
    assert Foreign(a) == Others(v) && Foreign(b) == Others(v');
  }
}
