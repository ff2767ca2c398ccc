/** The page tables refine a flat map from canonical pages to frames and flags. */
module Refinement {
  import opened Addr
  import opened Batch
  import opened Bits
  import opened Entry
  import opened Mapper
  import opened Ownership
  import opened PageTables
  import opened PhysMem
  import opened Steps
  import opened Results

  ghost function Lookup(v: View, w: Word): Option<(int, nat)>
    requires |v.pages| == FRAME_COUNT
  {
    Translate(v.pages, v.space.root, w)
  }

  predicate SamePage(v: Word, w: Word) { v / PAGE_SIZE == w / PAGE_SIZE }

  /** A successful map gives exactly that page its frame and flags. */
  lemma MapChangesOnePage(v: View, v': View, virt: Word, l: Leaf, w: Word)
    requires TreeInv(v.pages, v.space) && TreeInv(v'.pages, v'.space) && MapStep(v, v', virt, l)
    requires IsCanonical(virt) && IsCanonical(w)
    ensures SamePage(w, virt) ==>
      Lookup(v, w) == None && Lookup(v', w) == Some((l.frame * PAGE_SIZE + w % PAGE_SIZE, Or(l.flags, PF_READ)))
    ensures !SamePage(w, virt) ==> Lookup(v', w) == Lookup(v, w)
  {
    hide Translate, PageNode, TreeInv, Grown, IsCanonical;
    PageNodeIsInjective(w, virt);
    TranslateIsFlat(v.pages, v.space, w);
    TranslateIsFlat(v'.pages, v'.space, w);
  }

  /** A successful unmap removes exactly that page. */
  lemma UnmapChangesOnePage(v: View, v': View, virt: Word, w: Word)
    requires TreeInv(v.pages, v.space) && TreeInv(v'.pages, v'.space) && UnmapStep(v, v', virt)
    requires IsCanonical(virt) && IsCanonical(w)
    ensures SamePage(w, virt) ==> Lookup(v', w) == None
    ensures !SamePage(w, virt) ==> Lookup(v', w) == Lookup(v, w)
  {
    hide Translate, PageNode, TreeInv, IsCanonical;
    PageNodeIsInjective(w, virt);
    TranslateIsFlat(v.pages, v.space, w);
    TranslateIsFlat(v'.pages, v'.space, w);
  }

  /** A successful remap changes exactly the flags of that page. */
  lemma RemapChangesOnePage(v: View, v': View, virt: Word, flags: PageFlags, w: Word)
    requires TreeInv(v.pages, v.space) && TreeInv(v'.pages, v'.space) && RemapStep(v, v', virt, flags)
    requires IsCanonical(virt) && IsCanonical(w)
    ensures SamePage(w, virt) ==>
      Lookup(v, w).Some? && Lookup(v', w) == Some((Lookup(v, w).value.0, Or(flags, PF_READ)))
    ensures !SamePage(w, virt) ==> Lookup(v', w) == Lookup(v, w)
  {
    hide Translate, PageNode, TreeInv, IsCanonical;
    PageNodeIsInjective(w, virt);
    TranslateIsFlat(v.pages, v.space, w);
    TranslateIsFlat(v'.pages, v'.space, w);
  }

  /** Unmapping what was just mapped restores every translation and gives the frame back. */
  lemma MapThenUnmapRestores(u: View, v: View, v': View, virt: Word, l: Leaf, w: Word)
    requires TreeInv(u.pages, u.space) && TreeInv(v'.pages, v'.space)
    requires MapStep(u, v, virt, l) && UnmapStep(v, v', virt)
    ensures Lookup(v', w) == Lookup(u, w) && v.space.leaves[PageNode(virt)].frame == l.frame
  {
    hide Translate, PageNode, TreeInv;
    assert v'.space.leaves == u.space.leaves;
    TranslateIsFlat(u.pages, u.space, w);
    TranslateIsFlat(v'.pages, v'.space, w);
  }

  /** A batch that failed and was rolled back changes no translation at all. */
  lemma RolledBackChangesNothing(v0: View, v: View, w: Word)
    requires TreeInv(v0.pages, v0.space) && TreeInv(v.pages, v.space)
    requires Evolved(v0, v) && v.space.leaves == v0.space.leaves
    ensures Lookup(v, w) == Lookup(v0, w)
  {
    hide Translate, PageNode, TreeInv;
    TranslateIsFlat(v0.pages, v0.space, w);
    TranslateIsFlat(v.pages, v.space, w);
  }

  predicate InRange(w: Word, base: int, n: int) { base <= w < base + n * PAGE_SIZE }

  /** The page of an address of a range. */
  lemma RangeNode(w: Word, base: int, n: int)
    requires GoodRange(base, n) && IsCanonical(w)
    ensures InRange(w, base, n) <==> PageNode(w) in Nodes(base, 0, n)
  {
    hide PageNode, IsCanonical;
    if InRange(w, base, n) {
      var j := (w - base) / PAGE_SIZE;
      RangePage(base, n, j);
      PageNumber(base, j);
      PageNodeIsInjective(w, PageAt(base, j));
      assert NodeAt(base, j) == PageNode(w);
    }
    if PageNode(w) in Nodes(base, 0, n) {
      var j :| 0 <= j < n && PageNode(w) == NodeAt(base, j);
      RangePage(base, n, j);
      PageNumber(base, j);
      PageNodeIsInjective(w, PageAt(base, j));
    }
  }

  /** A batch that succeeded maps exactly the range, each page with the requested flags. */
  lemma BatchMapsRange(v0: View, v: View, base: int, n: int, flags: PageFlags, w: Word)
    requires Sound(v0) && Partly(v0, v, base, 0, n, flags) && GoodRange(base, n) && IsCanonical(w)
    ensures InRange(w, base, n) ==>
      && Lookup(v0, w) == None && Lookup(v, w).Some?
      && Lookup(v, w).value.0 % PAGE_SIZE == w % PAGE_SIZE && Lookup(v, w).value.1 == Or(flags, PF_READ)
    ensures !InRange(w, base, n) ==> Lookup(v, w) == Lookup(v0, w)
  {
    hide Translate, PageNode, TreeInv, Nodes, Evolved, IsCanonical, Owns;
    RangeNode(w, base, n);
    TranslateIsFlat(v0.pages, v0.space, w);
    TranslateIsFlat(v.pages, v.space, w);
    assert v.space.root == v0.space.root by { EvolvedRoot(v0, v); }
  }

  lemma EvolvedRoot(v0: View, v: View)
    requires Evolved(v0, v)
    ensures v.space.root == v0.space.root
  {}

  /** Unmapping a range removes exactly the range. */
  lemma ShrunkUnmapsRange(v0: View, v: View, base: int, n: int, w: Word)
    requires Sound(v0) && Shrunk(v0, v, base, n) && GoodRange(base, n) && IsCanonical(w)
    ensures Lookup(v, w) == if InRange(w, base, n) then None else Lookup(v0, w)
  {
    hide Translate, PageNode, TreeInv, Nodes, IsCanonical, Owns, Others, DonatedFrames;
    RangeNode(w, base, n);
    TranslateIsFlat(v0.pages, v0.space, w);
    TranslateIsFlat(v.pages, v.space, w);
  }
}
