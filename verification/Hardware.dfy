/** What the processor sees: its own walk over the raw words, and the permissions it grants. */
module Hardware {
  import opened Addr
  import opened Entry
  import opened Mapper
  import opened PageTables
  import opened PhysMem
  import opened Steps

  /** The four words the processor fetches to translate an address, from the root down. */
  datatype Words = Words(e4: Word, e3: Word, e2: Word, e1: Word)

  /** The frame a word points at: bits 12 to 51. */
  function Target(e: Word): Frame { e / 0x1000 % 0x100_0000_0000 }

  function Fetch(m: Memory, root: Frame, v: Word): Words
    requires |m| == FRAME_COUNT
  {
    var e4 := m[root][v / 0x80_0000_0000 % 512];
    var e3 := m[Target(e4)][v / 0x4000_0000 % 512];
    var e2 := m[Target(e3)][v / 0x20_0000 % 512];
    Words(e4, e3, e2, m[Target(e2)][v / 0x1000 % 512])
  }

  /** Every word is present, and neither of the two middle words maps a large page. */
  predicate Reaches(w: Words)
  {
    Set(w.e4, 1) && Set(w.e3, 1) && Set(w.e2, 1) && Set(w.e1, 1) && !Set(w.e3, 128) && !Set(w.e2, 128)
  }

  /** Writing and user access need their bit in all four words; execution needs bit 63 in none. */
  predicate MayWrite(w: Words) { Set(w.e4, 2) && Set(w.e3, 2) && Set(w.e2, 2) && Set(w.e1, 2) }

  predicate MayUser(w: Words) { Set(w.e4, 4) && Set(w.e3, 4) && Set(w.e2, 4) && Set(w.e1, 4) }

  predicate MayExecute(w: Words)
  {
    && !Set(w.e4, 0x8000_0000_0000_0000) && !Set(w.e3, 0x8000_0000_0000_0000)
    && !Set(w.e2, 0x8000_0000_0000_0000) && !Set(w.e1, 0x8000_0000_0000_0000)
  }

  /** A word of an upper table points at the child table and forbids nothing, or is not present. */
  lemma UpperWord(m: Memory, sp: Space, n: Node, i: nat)
    requires TreeInv(m, sp) && n in sp.tables && Depth(n) <= 2 && i < WORDS_PER_PAGE
    ensures var e, c := m[sp.tables[n]][i], Child(n, i);
            && (Set(e, 1) <==> c in sp.tables)
            && (c in sp.tables ==> Target(e) == sp.tables[c] && Set(e, 2) && Set(e, 4) && !Set(e, 128) && !Set(e, 0x8000_0000_0000_0000))
  {
    hide Pack;
    assert EntryAt(m, sp, n, i);
    var c := Child(n, i);
    assert Depth(c) <= 3;
    if c in sp.tables {
      TableBits(sp.tables[c]);
    } else {
      assert c !in sp.leaves;
    }
  }

  /** A word of a level-1 table is the leaf of the page, or is not present. */
  lemma LowerWord(m: Memory, sp: Space, n: Node, i: nat)
    requires TreeInv(m, sp) && n in sp.tables && Depth(n) == 3 && i < WORDS_PER_PAGE
    ensures var e, c := m[sp.tables[n]][i], Child(n, i);
            && (Set(e, 1) <==> c in sp.leaves)
            && (c in sp.leaves ==>
                  var l := sp.leaves[c];
                  && Target(e) == l.frame && (Set(e, 2) <==> Set(l.flags, 2)) && (Set(e, 4) <==> Set(l.flags, 8))
                  && (Set(e, 0x8000_0000_0000_0000) <==> !Set(l.flags, 4))
                  && (Set(e, 16) <==> Set(l.flags, 16)) && (Set(e, 256) <==> Set(l.flags, 32)))
  {
    hide Pack, EntryFlags;
    assert EntryAt(m, sp, n, i);
    var c := Child(n, i);
    assert Depth(c) == 4 && c !in sp.tables;
    if c in sp.leaves { LeafBits(sp.leaves[c].frame, sp.leaves[c].flags); }
  }

  /** The processor reaches a page exactly when the space has a leaf for it, and then it goes to the
      frame of the leaf and grants exactly what the flags of the leaf say: write, user access,
      execution, and the caching and global bits. */
  lemma ProcessorSeesLeaves(m: Memory, sp: Space, v: Word)
    requires TreeInv(m, sp)
    ensures var w := Fetch(m, sp.root, v);
            && (Reaches(w) <==> PageNode(v) in sp.leaves)
            && (PageNode(v) in sp.leaves ==>
                  var l := sp.leaves[PageNode(v)];
                  && Target(w.e1) == l.frame
                  && (MayWrite(w) <==> Set(l.flags, 2)) && (MayUser(w) <==> Set(l.flags, 8)) && (MayExecute(w) <==> Set(l.flags, 4))
                  && (Set(w.e1, 16) <==> Set(l.flags, 16)) && (Set(w.e1, 256) <==> Set(l.flags, 32)))
  {
    hide IndexOf, EntryOf, Set, Target, EntryAt;
    IndexIsField(4, v);
    IndexIsField(3, v);
    IndexIsField(2, v);
    IndexIsField(1, v);
    DepthOfPage(v);
    UpperWord(m, sp, Root, IndexOf(4, v));
    if L3Node(v) in sp.tables {
      UpperWord(m, sp, L3Node(v), IndexOf(3, v));
      if L2Node(v) in sp.tables {
        UpperWord(m, sp, L2Node(v), IndexOf(2, v));
        if L1Node(v) in sp.tables { LowerWord(m, sp, L1Node(v), IndexOf(1, v)); }
      }
    }
  }

  /** After a page has been mapped the processor reaches the frame and grants what was asked for; its
      view of every other page is unchanged. */
  lemma ProcessorAfterMap(v: View, v': View, virt: Word, l: Leaf, other: Word)
    requires TreeInv(v.pages, v.space) && TreeInv(v'.pages, v'.space) && MapStep(v, v', virt, l)
    ensures !Reaches(Fetch(v.pages, v.space.root, virt))
    ensures var w := Fetch(v'.pages, v'.space.root, virt);
            && Reaches(w) && Target(w.e1) == l.frame
            && (MayWrite(w) <==> Set(l.flags, 2)) && (MayUser(w) <==> Set(l.flags, 8)) && (MayExecute(w) <==> Set(l.flags, 4))
    ensures PageNode(other) != PageNode(virt) ==>
      var w, w' := Fetch(v.pages, v.space.root, other), Fetch(v'.pages, v'.space.root, other);
      && (Reaches(w') <==> Reaches(w))
      && (Reaches(w) ==> Target(w'.e1) == Target(w.e1)
                         && MayWrite(w') == MayWrite(w) && MayUser(w') == MayUser(w) && MayExecute(w') == MayExecute(w))
  {
    hide TreeInv, Fetch, PageNode, Reaches, MayWrite, MayUser, MayExecute, Set, Target, Grown;
    ProcessorSeesLeaves(v.pages, v.space, virt);
    ProcessorSeesLeaves(v'.pages, v'.space, virt);
    ProcessorSeesLeaves(v.pages, v.space, other);
    ProcessorSeesLeaves(v'.pages, v'.space, other);
  }
}
