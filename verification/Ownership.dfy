/** Who holds each physical frame: the free list, a caller, a page, or a page table. */
module Ownership {
  import opened Addr
  import Entry
  import opened Frames
  import opened Mapper
  import opened PageTables
  import opened PhysMem
  import opened Steps

  ghost function LeafFrames(sp: Space): set<Frame>
  {
    set n | n in sp.leaves :: sp.leaves[n].frame
  }

  /** The frames a space holds: its tables and its pages. */
  ghost function Owned(sp: Space): set<Frame>
  {
    TableFrames(sp) + LeafFrames(sp)
  }

  /** The frames handed out that this space does not hold. */
  ghost function Others(v: View): set<Frame> { v.out - Owned(v.space) }

  ghost function DonatedFrames(v: View): set<Frame> { v.out + Members(v.stack) }

  /** Tables and pages are outstanding frames, no page maps a table, no two pages share a frame. */
  ghost predicate Owns(out: set<Frame>, sp: Space)
  {
    && TableFrames(sp) <= out
    && (forall n :: n in sp.leaves ==> sp.leaves[n].frame in out && sp.leaves[n].frame !in TableFrames(sp))
    && forall a, b :: a in sp.leaves && b in sp.leaves && sp.leaves[a].frame == sp.leaves[b].frame ==> a == b
  }

  /** The free list holds each frame once and none that is handed out. */
  ghost predicate StackOk(v: View)
  {
    |v.pages| == FRAME_COUNT && Distinct(v.stack) && forall f :: f in v.stack ==> f !in v.out
  }

  lemma LeafFrameOf(sp: Space, n: Node)
    requires n in sp.leaves
    ensures sp.leaves[n].frame in LeafFrames(sp)
  {}

  lemma LeafFramesAfterSet(sp: Space, n: Node, l: Leaf)
    requires n !in sp.leaves
    ensures LeafFrames(WithLeaf(sp, n, l)) == LeafFrames(sp) + {l.frame}
  {
    var sp' := WithLeaf(sp, n, l);
    forall f ensures f in LeafFrames(sp') <==> f in LeafFrames(sp) || f == l.frame {
      if f in LeafFrames(sp) {
        var k :| k in sp.leaves && sp.leaves[k].frame == f;
        assert sp'.leaves[k].frame == f;
      }
      if f == l.frame { assert sp'.leaves[n].frame == f; }
    }
  }

  lemma LeafFramesAfterClear(sp: Space, n: Node)
    requires n in sp.leaves
    requires forall a, b :: a in sp.leaves && b in sp.leaves && sp.leaves[a].frame == sp.leaves[b].frame ==> a == b
    ensures LeafFrames(WithoutLeaf(sp, n)) == LeafFrames(sp) - {sp.leaves[n].frame}
  {
    var sp', x := WithoutLeaf(sp, n), sp.leaves[n].frame;
    forall f ensures f in LeafFrames(sp') <==> f in LeafFrames(sp) && f != x {
      if f in LeafFrames(sp') {
        var k :| k in sp'.leaves && sp'.leaves[k].frame == f;
        assert sp.leaves[k].frame == f && k != n;
      }
      if f in LeafFrames(sp) && f != x {
        var k :| k in sp.leaves && sp.leaves[k].frame == f;
        assert sp'.leaves[k].frame == f;
      }
    }
  }

  /** The first `k` frames of the free list are free. */
  lemma TakenWereFree(v: View, k: nat)
    requires StackOk(v) && k <= |v.stack|
    ensures Members(v.stack[..k]) !! v.out && Members(v.stack[..k]) !! Members(v.stack[k..])
    ensures Members(v.stack) == Members(v.stack[..k]) + Members(v.stack[k..])
  {
    assert v.stack == v.stack[..k] + v.stack[k..];
    MembersConcat(v.stack[..k], v.stack[k..]);
    forall f | f in v.stack[..k] ensures f !in v.stack[k..] {
      var i :| 0 <= i < k && v.stack[..k][i] == f;
    }
  }

  /** Mapping a frame nobody else holds: it moves from its holder to the page, and the frames of
      the new tables come from the free list. */
  lemma MapMovesFrame(v: View, v': View, virt: Word, l: Leaf)
    requires StackOk(v) && Owns(v.out, v.space) && MapStep(v, v', virt, l)
    requires l.frame in v.out && l.frame !in Owned(v.space)
    ensures StackOk(v') && Owns(v'.out, v'.space)
    ensures Others(v') == Others(v) - {l.frame} && DonatedFrames(v') == DonatedFrames(v)
    ensures TableFrames(v.space) <= TableFrames(v'.space) && TableFrames(v'.space) * v.out == TableFrames(v.space)
    ensures SameOutside(v.pages, v'.pages, TableFrames(v'.space))
  {
    var k := Missing(v.space, virt);
    TakenWereFree(v, k);
    var mid := v'.space.(leaves := v.space.leaves);
    assert v'.space == WithLeaf(mid, PageNode(virt), l);
    LeafFramesAfterSet(mid, PageNode(virt), l);
    assert LeafFrames(mid) == LeafFrames(v.space);
    forall n | n in v.space.leaves ensures v.space.leaves[n].frame != l.frame { LeafFrameOf(v.space, n); }
    assert Distinct(v'.stack);
    assert forall f :: f in v'.stack ==> f in v.stack;
  }

  /** Unmapping hands the page's frame to the caller. */
  lemma UnmapMovesFrame(v: View, v': View, virt: Word)
    requires StackOk(v) && Owns(v.out, v.space) && PageNode(virt) in v.space.leaves && UnmapStep(v, v', virt)
    ensures StackOk(v') && Owns(v'.out, v'.space)
    ensures var f := v.space.leaves[PageNode(virt)].frame;
            && f in v'.out && f !in Owned(v'.space) && f !in Others(v)
            && Others(v') == Others(v) + {f} && DonatedFrames(v') == DonatedFrames(v)
            && LeafFrames(v'.space) == LeafFrames(v.space) - {f}
  {
    var n := PageNode(virt);
    LeafFramesAfterClear(v.space, n);
    LeafFrameOf(v.space, n);
  }

  /** New flags move no frame. */
  lemma RemapMovesNothing(v: View, v': View, virt: Word, flags: Entry.PageFlags)
    requires StackOk(v) && Owns(v.out, v.space) && RemapStep(v, v', virt, flags)
    ensures StackOk(v') && Owns(v'.out, v'.space)
    ensures Others(v') == Others(v) && DonatedFrames(v') == DonatedFrames(v) && Owned(v'.space) == Owned(v.space)
  {
    var n := PageNode(virt);
    forall f ensures f in LeafFrames(v'.space) <==> f in LeafFrames(v.space) {
      if f in LeafFrames(v.space) {
        var k :| k in v.space.leaves && v.space.leaves[k].frame == f;
        assert v'.space.leaves[k].frame == f;
      }
      if f in LeafFrames(v'.space) {
        var k :| k in v'.space.leaves && v'.space.leaves[k].frame == f;
        assert v.space.leaves[k].frame == f;
      }
    }
  }

  /** The allocator hands out its first free frame. */
  ghost predicate TakeStep(v: View, v': View)
  {
    && v.stack != [] && v'.stack == v.stack[1..] && v'.out == v.out + {v.stack[0]}
    && v'.space == v.space && v'.pages == v.pages
  }

  lemma TakeMovesFrame(v: View, v': View)
    requires StackOk(v) && Owns(v.out, v.space) && TakeStep(v, v')
    ensures StackOk(v') && Owns(v'.out, v'.space)
    ensures var f := v.stack[0];
            && f !in v.out && f !in Owned(v.space)
            && Others(v') == Others(v) + {f} && DonatedFrames(v') == DonatedFrames(v)
  {
    TakenWereFree(v, 1);
    assert v.stack[..1] == [v.stack[0]];
    OwnedIsOut(v.out, v.space);
  }

  lemma OwnedIsOut(out: set<Frame>, sp: Space)
    requires Owns(out, sp)
    ensures Owned(sp) <= out
  {}

  /** The allocator takes a frame back and writes its list node into it. */
  ghost predicate GiveStep(v: View, v': View, f: Frame)
  {
    && f in v.out && v'.stack == [f] + v.stack && v'.out == v.out - {f} && v'.space == v.space
    && SameOutside(v.pages, v'.pages, {f})
  }

  lemma GiveMovesFrame(v: View, v': View, f: Frame)
    requires StackOk(v) && Owns(v.out, v.space) && GiveStep(v, v', f) && f !in Owned(v.space)
    ensures StackOk(v') && Owns(v'.out, v'.space)
    ensures Others(v') == Others(v) - {f} && DonatedFrames(v') == DonatedFrames(v)
    ensures TreeInv(v.pages, v.space) ==> TreeInv(v'.pages, v'.space)
  {
    assert Members([f] + v.stack) == {f} + Members(v.stack);
    forall n | n in v.space.leaves ensures v.space.leaves[n].frame != f { LeafFrameOf(v.space, n); }
    if TreeInv(v.pages, v.space) {
      forall n | n in v.space.tables ensures v.space.tables[n] != f {
        assert v.space.tables[n] in TableFrames(v.space);
      }
      TreeIgnoresOtherFrames(v.pages, v'.pages, v.space);
    }
  }
}
