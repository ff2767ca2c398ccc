/** Mapping and unmapping a range of pages, one page at a time. */
module Batch {
  import opened Addr
  import opened Entry
  import opened Frames
  import opened Mapper
  import opened Ownership
  import opened PageTables
  import opened PhysMem
  import opened Steps

  /** The address of page `j` of a range. */
  function PageAt(base: int, j: int): int { base + j * PAGE_SIZE }

  /** A page-aligned range in the upper canonical half. */
  predicate GoodRange(base: int, n: int)
  {
    base % PAGE_SIZE == 0 && 0xffff_8000_0000_0000 <= base && 0 <= n && base + n * PAGE_SIZE <= WORD_LIMIT
  }

  lemma RangePage(base: int, n: int, j: int)
    requires GoodRange(base, n) && 0 <= j < n
    ensures 0 <= PageAt(base, j) < WORD_LIMIT && PageAt(base, j) % PAGE_SIZE == 0 && IsCanonical(PageAt(base, j))
  {
    hide IsCanonical;
    CanonicalIsRange(PageAt(base, j));
  }

  /** The tree node of page `j`. */
  ghost function NodeAt(base: int, j: int): Node
  {
    if 0 <= PageAt(base, j) < WORD_LIMIT then PageNode(PageAt(base, j)) else Root
  }

  /** The tree nodes of pages `lo` to `hi`. */
  ghost function Nodes(base: int, lo: int, hi: int): set<Node>
  {
    set j | lo <= j < hi :: NodeAt(base, j)
  }

  lemma NodesDiffer(base: int, n: int, i: int, j: int)
    requires GoodRange(base, n) && 0 <= i < n && 0 <= j < n && i != j
    ensures NodeAt(base, i) != NodeAt(base, j)
  {
    hide PageNode, IsCanonical;
    RangePage(base, n, i);
    RangePage(base, n, j);
    PageNodeIsInjective(PageAt(base, i), PageAt(base, j));
    PageNumber(base, i);
    PageNumber(base, j);
  }

  lemma PageNumber(base: int, j: int)
    requires base % PAGE_SIZE == 0
    ensures PageAt(base, j) / PAGE_SIZE == base / PAGE_SIZE + j
  {}

  lemma NodesSnoc(base: int, lo: int, hi: int)
    requires lo <= hi
    ensures Nodes(base, lo, hi + 1) == Nodes(base, lo, hi) + {NodeAt(base, hi)}
  {
    hide NodeAt;
    forall n ensures n in Nodes(base, lo, hi + 1) <==> n in Nodes(base, lo, hi) || n == NodeAt(base, hi) {
      if n in Nodes(base, lo, hi + 1) {
        var j :| lo <= j < hi + 1 && n == NodeAt(base, j);
      }
    }
  }

  lemma NodesTail(base: int, n: int, lo: int, hi: int)
    requires GoodRange(base, n) && 0 <= lo < hi <= n
    ensures Nodes(base, lo + 1, hi) == Nodes(base, lo, hi) - {NodeAt(base, lo)}
  {
    hide NodeAt;
    var rest := Nodes(base, lo, hi) - {NodeAt(base, lo)};
    forall x | x in Nodes(base, lo + 1, hi) ensures x in rest {
      var j :| lo + 1 <= j < hi && x == NodeAt(base, j);
      NodesDiffer(base, n, lo, j);
    }
    forall x | x in rest ensures x in Nodes(base, lo + 1, hi) {
      var j :| lo <= j < hi && x == NodeAt(base, j);
    }
  }

  // ---------------------------------------------------------------------------------------
  // What a batch keeps
  // ---------------------------------------------------------------------------------------

  ghost predicate SameOn(m: Memory, m': Memory, fs: set<Frame>)
  {
    |m| == |m'| == FRAME_COUNT && forall f: Frame :: f in fs ==> m'[f] == m[f]
  }

  /** The state is sound: tree, free list and ownership. */
  ghost predicate Sound(v: View)
  {
    TreeInv(v.pages, v.space) && StackOk(v) && Owns(v.out, v.space)
  }

  /** Tables were only added, from free frames; no frame changed hands with anyone else; no frame
      that was outstanding at the start was written, tables of this space aside. */
  ghost predicate Evolved(v0: View, v: View)
  {
    && v.space.root == v0.space.root
    && TableFrames(v0.space) <= TableFrames(v.space)
    && TableFrames(v.space) * v0.out == TableFrames(v0.space)
    && v0.out <= v.out && Others(v) == Others(v0) && DonatedFrames(v) == DonatedFrames(v0)
    && SameOn(v0.pages, v.pages, v0.out - TableFrames(v0.space))
  }

  /** The pages are those of the start plus pages `lo` to `hi` of the range, with fresh frames. */
  ghost predicate LeavesPlus(v0: View, v: View, base: int, lo: int, hi: int, flags: PageFlags)
  {
    && Nodes(base, lo, hi) !! v0.space.leaves.Keys
    && v.space.leaves.Keys == v0.space.leaves.Keys + Nodes(base, lo, hi)
    && (forall n :: n in v0.space.leaves ==> v.space.leaves[n] == v0.space.leaves[n])
    && (forall n :: n in Nodes(base, lo, hi) ==> v.space.leaves[n].flags == flags && v.space.leaves[n].frame !in v0.out)
  }

  ghost predicate Partly(v0: View, v: View, base: int, lo: int, hi: int, flags: PageFlags)
  {
    Sound(v) && Evolved(v0, v) && LeavesPlus(v0, v, base, lo, hi, flags)
  }

  lemma PartlyAtStart(v: View, base: int, flags: PageFlags)
    requires Sound(v)
    ensures Partly(v, v, base, 0, 0, flags)
  {
    assert Nodes(base, 0, 0) == {};
  }

  /** With no page left over, the mapping is the one of the start. */
  lemma NothingLeft(v0: View, v: View, base: int, k: int, flags: PageFlags)
    requires LeavesPlus(v0, v, base, k, k, flags)
    ensures v.space.leaves == v0.space.leaves
  {
    assert Nodes(base, k, k) == {};
  }

  /** Taking a frame and mapping it adds the next page. */
  lemma MapNextPage(v0: View, v: View, v1: View, v2: View, base: int, hi: nat, flags: PageFlags)
    requires Partly(v0, v, base, 0, hi, flags) && GoodRange(base, hi + 1)
    requires TakeStep(v, v1) && 0 <= PageAt(base, hi) < WORD_LIMIT
    requires MapStep(v1, v2, PageAt(base, hi), Leaf(v.stack[0], flags)) && TreeInv(v2.pages, v2.space)
    ensures Partly(v0, v2, base, 0, hi + 1, flags)
  {
    var f := v.stack[0];
    TakeMovesFrame(v, v1);
    MapMovesFrame(v1, v2, PageAt(base, hi), Leaf(f, flags));
    MapEvolves(v0, v, v1, v2, f);
    NodesSnoc(base, 0, hi);
    MapLeaves(v0, v, v1, v2, base, hi, flags);
  }

  lemma MapLeaves(v0: View, v: View, v1: View, v2: View, base: int, hi: nat, flags: PageFlags)
    requires LeavesPlus(v0, v, base, 0, hi, flags) && 0 <= PageAt(base, hi) < WORD_LIMIT
    requires TakeStep(v, v1) && v0.out <= v.out && v.stack[0] !in v.out
    requires MapStep(v1, v2, PageAt(base, hi), Leaf(v.stack[0], flags))
    requires Nodes(base, 0, hi + 1) == Nodes(base, 0, hi) + {NodeAt(base, hi)}
    ensures LeavesPlus(v0, v2, base, 0, hi + 1, flags)
  {
    hide Grown, Nodes, PageNode;
  }

  lemma MapEvolves(v0: View, v: View, v1: View, v2: View, f: Frame)
    requires Evolved(v0, v) && TakeStep(v, v1) && f == v.stack[0] && f !in v.out
    requires v1.out <= v2.out && v2.space.root == v1.space.root
    requires Others(v1) == Others(v) + {f} && f !in Others(v) && DonatedFrames(v1) == DonatedFrames(v)
    requires Others(v2) == Others(v1) - {f} && DonatedFrames(v2) == DonatedFrames(v1)
    requires TableFrames(v1.space) <= TableFrames(v2.space) && TableFrames(v2.space) * v1.out == TableFrames(v1.space)
    requires SameOutside(v1.pages, v2.pages, TableFrames(v2.space))
    ensures Evolved(v0, v2)
  {
    hide Others, DonatedFrames, TableFrames;
    forall g: Frame | g in v0.out - TableFrames(v0.space) ensures v2.pages[g] == v0.pages[g] {
      assert g in v.out && g in v1.out;
      assert g !in TableFrames(v.space);
    }
  }

  /** Unmapping the first remaining page and freeing its frame takes that page away again. */
  lemma UnmapFirstPage(v0: View, v: View, v1: View, v2: View, base: int, lo: nat, hi: nat, flags: PageFlags)
    requires Partly(v0, v, base, lo, hi, flags) && lo < hi && GoodRange(base, hi)
    requires 0 <= PageAt(base, lo) < WORD_LIMIT && PageNode(PageAt(base, lo)) in v.space.leaves
    requires UnmapStep(v, v1, PageAt(base, lo)) && TreeInv(v1.pages, v1.space)
    requires GiveStep(v1, v2, v.space.leaves[PageNode(PageAt(base, lo))].frame)
    ensures Partly(v0, v2, base, lo + 1, hi, flags)
  {
    var f := v.space.leaves[PageNode(PageAt(base, lo))].frame;
    UnmapMovesFrame(v, v1, PageAt(base, lo));
    GiveMovesFrame(v1, v2, f);
    assert NodeAt(base, lo) in Nodes(base, lo, hi);
    UnmapEvolves(v0, v, v1, v2, f);
    NodesTail(base, hi, lo, hi);
    UnmapLeaves(v0, v, v1, v2, base, lo, hi, flags);
  }

  lemma UnmapLeaves(v0: View, v: View, v1: View, v2: View, base: int, lo: nat, hi: nat, flags: PageFlags)
    requires LeavesPlus(v0, v, base, lo, hi, flags) && 0 <= PageAt(base, lo) < WORD_LIMIT
    requires UnmapStep(v, v1, PageAt(base, lo)) && v2.space == v1.space
    requires NodeAt(base, lo) in Nodes(base, lo, hi)
    requires Nodes(base, lo + 1, hi) == Nodes(base, lo, hi) - {NodeAt(base, lo)}
    ensures LeavesPlus(v0, v2, base, lo + 1, hi, flags)
  {
    hide Nodes, PageNode;
  }

  lemma UnmapEvolves(v0: View, v: View, v1: View, v2: View, f: Frame)
    requires Evolved(v0, v) && v1.space.root == v.space.root && v1.space.tables == v.space.tables
    requires v1.out == v.out && SameOutside(v.pages, v1.pages, TableFrames(v.space))
    requires f !in v0.out && GiveStep(v1, v2, f)
    requires Others(v1) == Others(v) + {f} && f !in Others(v) && DonatedFrames(v1) == DonatedFrames(v)
    requires Others(v2) == Others(v1) - {f} && DonatedFrames(v2) == DonatedFrames(v1)
    ensures Evolved(v0, v2)
  {
    hide Others, DonatedFrames;
    forall g: Frame | g in v0.out - TableFrames(v0.space) ensures v2.pages[g] == v0.pages[g] {
      assert g in v.out;
      assert g !in TableFrames(v.space);
    }
  }

  /** A frame taken for a page that could not be mapped goes back where it came from. */
  lemma TakeThenGiveKeeps(v0: View, v: View, v1: View, v2: View, base: int, hi: nat, flags: PageFlags)
    requires Partly(v0, v, base, 0, hi, flags) && TakeStep(v, v1) && GiveStep(v1, v2, v.stack[0])
    ensures Partly(v0, v2, base, 0, hi, flags) && v2.stack == v.stack && v2.out == v.out
  {
    var f := v.stack[0];
    TakeMovesFrame(v, v1);
    GiveMovesFrame(v1, v2, f);
    assert [f] + v.stack[1..] == v.stack;
    TakeGiveEvolves(v0, v, v1, v2, f);
  }

  lemma TakeGiveEvolves(v0: View, v: View, v1: View, v2: View, f: Frame)
    requires Evolved(v0, v) && TakeStep(v, v1) && GiveStep(v1, v2, f) && f == v.stack[0] && f !in v.out
    requires v2.out == v.out && v2.stack == v.stack
    ensures Evolved(v0, v2)
  {
    assert Others(v2) == Others(v);
    forall g: Frame | g in v0.out - TableFrames(v0.space) ensures v2.pages[g] == v0.pages[g] {
      assert g in v.out;
    }
  }

  /** When the mapping is back to what it was, only new tables stay behind. */
  lemma OnlyTablesKept(v0: View, v: View)
    requires Sound(v0) && Sound(v) && Evolved(v0, v) && v.space.leaves == v0.space.leaves
    ensures v.out == v0.out + TableFrames(v.space)
  {
    OwnedIsOut(v.out, v.space);
    OwnedIsOut(v0.out, v0.space);
    assert LeafFrames(v.space) == LeafFrames(v0.space);
    assert v.out == Others(v) + Owned(v.space);
    assert v0.out == Others(v0) + Owned(v0.space);
  }

  // ---------------------------------------------------------------------------------------
  // Unmapping a range
  // ---------------------------------------------------------------------------------------

  /** The first `k` pages of the range are gone and their frames are free again; nothing else moved. */
  ghost predicate Shrunk(v0: View, v: View, base: int, k: int)
  {
    && Sound(v)
    && v.space.root == v0.space.root && v.space.tables == v0.space.tables
    && v.space.leaves == v0.space.leaves - Nodes(base, 0, k)
    && Others(v) == Others(v0) && DonatedFrames(v) == DonatedFrames(v0)
    && v.out <= v0.out && SameOn(v0.pages, v.pages, v.out - TableFrames(v.space))
  }

  lemma ShrunkAtStart(v: View, base: int)
    requires Sound(v)
    ensures Shrunk(v, v, base, 0)
  {
    assert Nodes(base, 0, 0) == {};
    assert v.space.leaves - {} == v.space.leaves;
  }

  /** Unmapping the next page and freeing its frame. */
  lemma ShrinkNextPage(v0: View, v: View, v1: View, v2: View, base: int, k: nat)
    requires Shrunk(v0, v, base, k) && GoodRange(base, k + 1)
    requires 0 <= PageAt(base, k) < WORD_LIMIT && PageNode(PageAt(base, k)) in v.space.leaves
    requires UnmapStep(v, v1, PageAt(base, k)) && TreeInv(v1.pages, v1.space)
    requires GiveStep(v1, v2, v.space.leaves[PageNode(PageAt(base, k))].frame)
    ensures Shrunk(v0, v2, base, k + 1)
  {
    var f := v.space.leaves[PageNode(PageAt(base, k))].frame;
    UnmapMovesFrame(v, v1, PageAt(base, k));
    GiveMovesFrame(v1, v2, f);
    NodesSnoc(base, 0, k);
    ShrinkLeaves(v0, v, v2, base, k);
    ShrinkPages(v0, v, v1, v2, f);
  }

  lemma ShrinkLeaves(v0: View, v: View, v2: View, base: int, k: nat)
    requires v.space.leaves == v0.space.leaves - Nodes(base, 0, k)
    requires v2.space.leaves == v.space.leaves - {NodeAt(base, k)}
    requires Nodes(base, 0, k + 1) == Nodes(base, 0, k) + {NodeAt(base, k)}
    ensures v2.space.leaves == v0.space.leaves - Nodes(base, 0, k + 1)
  {
    hide Nodes, NodeAt;
  }

  lemma ShrinkPages(v0: View, v: View, v1: View, v2: View, f: Frame)
    requires SameOn(v0.pages, v.pages, v.out - TableFrames(v.space)) && v1.space.tables == v.space.tables
    requires v1.out == v.out && SameOutside(v.pages, v1.pages, TableFrames(v.space)) && GiveStep(v1, v2, f)
    ensures SameOn(v0.pages, v2.pages, v2.out - TableFrames(v2.space))
  {}

  /** A page that is not mapped is skipped. */
  lemma SkipNextPage(v0: View, v: View, base: int, k: nat)
    requires Shrunk(v0, v, base, k) && GoodRange(base, k + 1) && NodeAt(base, k) !in v.space.leaves
    ensures Shrunk(v0, v, base, k + 1)
  {
    hide NodeAt, Sound, Others, DonatedFrames;
    NodesSnoc(base, 0, k);
    assert v.space.leaves == v0.space.leaves - Nodes(base, 0, k + 1);
  }

  /** A page of the range not yet reached is as it was at the start. */
  lemma NotYetReached(v0: View, v: View, base: int, n: int, k: nat)
    requires Shrunk(v0, v, base, k) && GoodRange(base, n) && k < n
    ensures NodeAt(base, k) in v.space.leaves <==> NodeAt(base, k) in v0.space.leaves
  {
    hide NodeAt, Sound, Others, DonatedFrames;
    if NodeAt(base, k) in Nodes(base, 0, k) {
      var j :| 0 <= j < k && NodeAt(base, k) == NodeAt(base, j);
      NodesDiffer(base, n, k, j);
    }
  }

  // ---------------------------------------------------------------------------------------
  // The TLB
  // ---------------------------------------------------------------------------------------

  /** The translations the hardware may load from the tables. */
  ghost function Cached(sp: Space): set<(Node, Leaf)>
  {
    set n | n in sp.leaves :: (n, sp.leaves[n])
  }

  /** Every translation that may be cached agrees with the tables. */
  ghost predicate Coherent(tlb: set<(Node, Leaf)>, sp: Space) { tlb <= Cached(sp) }

  /** `invlpg`, after which the hardware may load the present translations again. */
  ghost function Flushed(tlb: set<(Node, Leaf)>, sp: Space, n: Node): set<(Node, Leaf)>
  {
    (set e | e in tlb && e.0 != n) + Cached(sp)
  }
}
