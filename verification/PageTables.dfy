/** Four-level page tables in physical memory, and the flat map they represent. */
module PageTables {
  import opened Addr
  import opened Bits
  import opened Entry
  import opened PhysMem
  import opened Results

  // ---------------------------------------------------------------------------------------
  // Virtual addresses
  // ---------------------------------------------------------------------------------------

  /** Bits 47 to 63 are all equal. */
  predicate IsCanonical(v: Word)
  {
    Shr(v, 47) == 0 || Shr(v, 47) == 0x1_ffff
  }

  function IndexShift(level: nat): nat
    requires 1 <= level <= 4
  {
    12 + (level - 1) * 9
  }

  function IndexOf(level: nat, v: Word): nat
    requires 1 <= level <= 4
  {
    And(Shr(v, IndexShift(level)), 0x1ff)
  }

  /** A place in the table tree: the root, or an entry of the table at `parent`. */
  datatype Node = Root | Child(parent: Node, index: nat)

  function Depth(n: Node): nat
  {
    if n.Root? then 0 else 1 + Depth(n.parent)
  }

  /** The entries a walk for `v` passes through. */
  function L3Node(v: Word): Node { Child(Root, IndexOf(4, v)) }

  function L2Node(v: Word): Node { Child(L3Node(v), IndexOf(3, v)) }

  function L1Node(v: Word): Node { Child(L2Node(v), IndexOf(2, v)) }

  function PageNode(v: Word): Node { Child(L1Node(v), IndexOf(1, v)) }

  lemma IndexIsField(level: nat, v: Word)
    requires 1 <= level <= 4
    ensures IndexOf(level, v) < WORDS_PER_PAGE
    ensures level == 1 ==> IndexOf(1, v) == v / 0x1000 % 512
    ensures level == 2 ==> IndexOf(2, v) == v / 0x20_0000 % 512
    ensures level == 3 ==> IndexOf(3, v) == v / 0x4000_0000 % 512
    ensures level == 4 ==> IndexOf(4, v) == v / 0x80_0000_0000 % 512
  {
    hide And, Shr;
    var s: nat, n: nat := IndexShift(level), 9;
    ShrDivides(v, s);
    Pow2Values();
    assert Pow2(n) == 512;
    AndLowMask(Shr(v, s), n);
    ShiftPowers(s);
  }

  lemma ShiftPowers(s: nat)
    ensures s == 12 ==> Pow2(s) == 0x1000
    ensures s == 21 ==> Pow2(s) == 0x20_0000
    ensures s == 30 ==> Pow2(s) == 0x4000_0000
    ensures s == 39 ==> Pow2(s) == 0x80_0000_0000
    ensures s == 47 ==> Pow2(s) == 0x8000_0000_0000
  {
    Pow2Values();
    Pow2Sum(12, 9, 0x1000, 0x200);
    Pow2Sum(21, 9, 0x20_0000, 0x200);
    Pow2Sum(30, 9, 0x4000_0000, 0x200);
    Pow2Sum(39, 8, 0x80_0000_0000, 0x100);
  }

  lemma CanonicalIsRange(v: Word)
    ensures IsCanonical(v) <==> v < 0x8000_0000_0000 || v >= 0xffff_8000_0000_0000
  {
    hide Shr;
    var s: nat := 47;
    ShrDivides(v, s);
    ShiftPowers(s);
  }

  /** The four indices determine the page of a canonical address. */
  lemma PageNodeIsInjective(v: Word, w: Word)
    requires IsCanonical(v) && IsCanonical(w)
    ensures PageNode(v) == PageNode(w) <==> v / PAGE_SIZE == w / PAGE_SIZE
  {
    hide IndexOf, IsCanonical;
    CanonicalIsRange(v);
    CanonicalIsRange(w);
    IndexIsField(1, v); IndexIsField(2, v); IndexIsField(3, v); IndexIsField(4, v);
    IndexIsField(1, w); IndexIsField(2, w); IndexIsField(3, w); IndexIsField(4, w);
    PageFromIndices(v);
    PageFromIndices(w);
  }

  /** A number is its digits in base 512. */
  lemma Digits(p: nat)
    ensures p == p / 512 / 512 / 512 * 0x800_0000 + p / 512 / 512 % 512 * 0x4_0000 + p / 512 % 512 * 0x200 + p % 512
  {
    assert p == p / 512 * 512 + p % 512;
    assert p / 512 == p / 512 / 512 * 512 + p / 512 % 512;
    assert p / 512 / 512 == p / 512 / 512 / 512 * 512 + p / 512 / 512 % 512;
  }

  /** The top digit of a canonical address, of which nine bits are kept. */
  lemma TopDigit(v: Word)
    requires v < 0x8000_0000_0000 || v >= 0xffff_8000_0000_0000
    ensures var top := v / 0x80_0000_0000;
            top == top % 512 + (if top % 512 < 256 then 0 else 0x1ff_fe00)
  {
  }

  /** A canonical page number is its four 9-bit digits, sign-extended. */
  lemma PageFromIndices(v: Word)
    requires v < 0x8000_0000_0000 || v >= 0xffff_8000_0000_0000
    ensures var i4 := v / 0x80_0000_0000 % 512;
            v / PAGE_SIZE == (if i4 < 256 then 0 else 0xf_fff0_0000_0000)
              + i4 * 0x800_0000 + v / 0x4000_0000 % 512 * 0x4_0000 + v / 0x20_0000 % 512 * 0x200 + v / 0x1000 % 512
    ensures v / 0x1000 % 512 == v / PAGE_SIZE % 512
    ensures v / 0x20_0000 == v / PAGE_SIZE / 512 && v / 0x4000_0000 == v / 0x20_0000 / 512
    ensures v / 0x80_0000_0000 == v / 0x4000_0000 / 512
  {
    Bits.DivDiv(v, 0x1000, 512);
    Bits.DivDiv(v, 0x20_0000, 512);
    Bits.DivDiv(v, 0x4000_0000, 512);
    Digits(v / PAGE_SIZE);
    TopDigit(v);
  }

  // ---------------------------------------------------------------------------------------
  // Walking memory
  // ---------------------------------------------------------------------------------------

  /** One step of a walk: the table an entry points at. */
  function Follow(m: Memory, table: Frame, i: nat, mayBeHuge: bool): Option<Frame>
    requires |m| == FRAME_COUNT && i < WORDS_PER_PAGE
  {
    var e := m[table][i];
    if !IsPresent(e) || (mayBeHuge && IsHuge(e)) then None else FrameOf(e)
  }

  /** The level-1 table for `v`, if the walk gets that far. */
  function Walk(m: Memory, root: Frame, v: Word): Option<Frame>
    requires |m| == FRAME_COUNT
  {
    IndexIsField(4, v);
    IndexIsField(3, v);
    IndexIsField(2, v);
    var l3 := Follow(m, root, IndexOf(4, v), false);
    if l3.None? then None else
    var l2 := Follow(m, l3.value, IndexOf(3, v), true);
    if l2.None? then None else
    Follow(m, l2.value, IndexOf(2, v), true)
  }

  /** The physical address and the flags of `v`. */
  function Translate(m: Memory, root: Frame, v: Word): Option<(int, nat)>
    requires |m| == FRAME_COUNT
  {
    IndexIsField(1, v);
    var l1 := Walk(m, root, v);
    if l1.None? then None else
    var leaf := m[l1.value][IndexOf(1, v)];
    if !IsPresent(leaf) || FrameOf(leaf).None? then None else
    Some((FrameOf(leaf).value * PAGE_SIZE + And(v, PAGE_SIZE - 1), PortableFlags(FlagsOf(leaf))))
  }

  // ---------------------------------------------------------------------------------------
  // What the tables represent
  // ---------------------------------------------------------------------------------------

  datatype Leaf = Leaf(frame: Frame, flags: PageFlags)

  /** An address space: which frame holds the table of each node, and which pages are mapped. */
  datatype Space = Space(root: Frame, tables: map<Node, Frame>, leaves: map<Node, Leaf>)

  /** The entry word that stands for node `n`. */
  ghost function EntryOf(sp: Space, n: Node): nat
  {
    if n in sp.tables then Pack(sp.tables[n], TABLE_FLAGS)
    else if n in sp.leaves then Pack(sp.leaves[n].frame, EntryFlags(sp.leaves[n].flags))
    else 0
  }

  /** Entry `i` of the table at `n` holds the word for that child. */
  ghost predicate EntryAt(m: Memory, sp: Space, n: Node, i: nat)
    requires |m| == FRAME_COUNT && n in sp.tables && i < WORDS_PER_PAGE
  {
    m[sp.tables[n]][i] == EntryOf(sp, Child(n, i))
  }

  /** Every table and every page hangs below a table; tables are at depth 0 to 3, pages at 4. */
  ghost predicate Rooted(sp: Space)
  {
    && Root in sp.tables && sp.tables[Root] == sp.root
    && (forall n :: n in sp.tables ==> Depth(n) <= 3)
    && (forall n :: n in sp.tables && n.Child? ==> n.parent in sp.tables && n.index < WORDS_PER_PAGE)
    && (forall n :: n in sp.leaves ==> n.Child? && Depth(n) == 4 && n.parent in sp.tables && n.index < WORDS_PER_PAGE)
  }

  /** Distinct tables live in distinct frames. */
  ghost predicate TableFramesDistinct(sp: Space)
  {
    forall a, b :: a in sp.tables && b in sp.tables && sp.tables[a] == sp.tables[b] ==> a == b
  }

  ghost predicate TreeInv(m: Memory, sp: Space)
  {
    && |m| == FRAME_COUNT && Rooted(sp) && TableFramesDistinct(sp)
    && forall n, i :: n in sp.tables && 0 <= i < WORDS_PER_PAGE ==> EntryAt(m, sp, n, i)
  }

  /** What the entry of an intermediate table shows. */
  lemma TableEntryShows(m: Memory, sp: Space, n: Node, i: nat)
    requires TreeInv(m, sp) && n in sp.tables && Depth(n) <= 2 && i < WORDS_PER_PAGE
    ensures var e, c := m[sp.tables[n]][i], Child(n, i);
            && (IsPresent(e) <==> c in sp.tables)
            && (IsPresent(e) ==> !IsHuge(e) && FrameOf(e) == Some(sp.tables[c]))
  {
    hide IsPresent, IsHuge, FrameOf, Pack;
    assert EntryAt(m, sp, n, i);
    var c := Child(n, i);
    assert Depth(c) <= 3;
    if c in sp.tables {
      TableEntry(sp.tables[c]);
    } else {
      assert c !in sp.leaves;
      EmptyEntry();
    }
  }

  /** What the entry of a level-1 table shows. */
  lemma PageEntryShows(m: Memory, sp: Space, n: Node, i: nat)
    requires TreeInv(m, sp) && n in sp.tables && Depth(n) == 3 && i < WORDS_PER_PAGE
    ensures var e, c := m[sp.tables[n]][i], Child(n, i);
            && (IsPresent(e) <==> c in sp.leaves)
            && (IsPresent(e) ==>
                  && !IsHuge(e) && FrameOf(e) == Some(sp.leaves[c].frame)
                  && PortableFlags(FlagsOf(e)) == Or(sp.leaves[c].flags, PF_READ))
  {
    hide IsPresent, IsHuge, FrameOf, Pack, EntryFlags, PortableFlags, FlagsOf;
    assert EntryAt(m, sp, n, i);
    var c := Child(n, i);
    assert Depth(c) == 4;
    assert c !in sp.tables;
    if c in sp.leaves {
      LeafEntry(sp.leaves[c].frame, sp.leaves[c].flags);
    } else {
      EmptyEntry();
    }
  }

  /** A walk step follows the tree. */
  lemma FollowIsChild(m: Memory, sp: Space, n: Node, i: nat, mayBeHuge: bool)
    requires TreeInv(m, sp) && n in sp.tables && Depth(n) <= 2 && i < WORDS_PER_PAGE
    ensures Follow(m, sp.tables[n], i, mayBeHuge)
         == if Child(n, i) in sp.tables then Some(sp.tables[Child(n, i)]) else None
  {
    hide IsPresent, IsHuge, FrameOf, EntryAt;
    TableEntryShows(m, sp, n, i);
  }

  /** The walk reaches exactly the level-1 table of the tree. */
  lemma WalkIsTree(m: Memory, sp: Space, v: Word)
    requires TreeInv(m, sp)
    ensures Walk(m, sp.root, v) == if L1Node(v) in sp.tables then Some(sp.tables[L1Node(v)]) else None
  {
    hide Follow, IndexOf, EntryOf;
    IndexIsField(4, v);
    IndexIsField(3, v);
    IndexIsField(2, v);
    FollowIsChild(m, sp, Root, IndexOf(4, v), false);
    if L3Node(v) in sp.tables {
      FollowIsChild(m, sp, L3Node(v), IndexOf(3, v), true);
      if L2Node(v) in sp.tables {
        FollowIsChild(m, sp, L2Node(v), IndexOf(2, v), true);
      }
    }
  }

  /** What a leaf says about the addresses of its page. */
  function LeafResult(l: Leaf, v: Word): (int, nat)
  {
    (l.frame * PAGE_SIZE + v % PAGE_SIZE, Or(l.flags, PF_READ))
  }

  /** The tables refine a flat map: a translation is the leaf of the page, with the page offset
      kept and READ added to the flags, and nothing when the page has no leaf. */
  lemma TranslateIsFlat(m: Memory, sp: Space, v: Word)
    requires TreeInv(m, sp)
    ensures Translate(m, sp.root, v)
         == if PageNode(v) in sp.leaves then Some(LeafResult(sp.leaves[PageNode(v)], v)) else None
  {
    hide Walk, IndexOf, IsPresent, FrameOf, PortableFlags, FlagsOf, And, EntryAt, Or, TableFramesDistinct;
    IndexIsField(1, v);
    WalkIsTree(m, sp, v);
    PageOffset(v);
    if L1Node(v) in sp.tables {
      DepthOfPage(v);
      PageEntryShows(m, sp, L1Node(v), IndexOf(1, v));
    }
  }

  lemma DepthOfPage(v: Word)
    ensures Depth(L3Node(v)) == 1 && Depth(L2Node(v)) == 2 && Depth(L1Node(v)) == 3 && Depth(PageNode(v)) == 4
  {}

  lemma PageOffset(v: Word)
    ensures And(v, PAGE_SIZE - 1) == v % PAGE_SIZE
  {
    Pow2Values();
    var k: nat := 12;
    assert Pow2(k) == PAGE_SIZE;
    AndLowMask(v, k);
  }

  // ---------------------------------------------------------------------------------------
  // Changing one entry
  // ---------------------------------------------------------------------------------------

  function WithLeaf(sp: Space, n: Node, l: Leaf): Space { sp.(leaves := sp.leaves[n := l]) }

  function WithoutLeaf(sp: Space, n: Node): Space { sp.(leaves := sp.leaves - {n}) }

  function WithTable(sp: Space, n: Node, f: Frame): Space { sp.(tables := sp.tables[n := f]) }

  /** The tree does not depend on frames that are not its tables. */
  lemma TreeIgnoresOtherFrames(m: Memory, m': Memory, sp: Space)
    requires TreeInv(m, sp) && |m'| == FRAME_COUNT
    requires forall n :: n in sp.tables ==> m'[sp.tables[n]] == m[sp.tables[n]]
    ensures TreeInv(m', sp)
  {
    hide EntryOf;
    forall n, i | n in sp.tables && 0 <= i < WORDS_PER_PAGE ensures EntryAt(m', sp, n, i) {
      assert EntryAt(m, sp, n, i);
    }
  }

  /** A change to the space that shows only at node `n`, written to memory at that entry. */
  lemma WriteEntry(m: Memory, sp: Space, sp': Space, n: Node)
    requires TreeInv(m, sp) && n.Child? && n.parent in sp.tables && n.index < WORDS_PER_PAGE
    requires sp'.tables == sp.tables && sp'.root == sp.root && Rooted(sp')
    requires forall c :: c != n ==> EntryOf(sp', c) == EntryOf(sp, c)
    requires EntryOf(sp', n) < WORD_LIMIT
    ensures TreeInv(Write(m, sp.tables[n.parent], n.index, EntryOf(sp', n)), sp')
  {
    hide EntryOf, Write;
    var t := sp.tables[n.parent];
    var m' := Write(m, t, n.index, EntryOf(sp', n));
    forall k, i | k in sp'.tables && 0 <= i < WORDS_PER_PAGE ensures EntryAt(m', sp', k, i) {
      assert EntryAt(m, sp, k, i);
      if sp.tables[k] == t {
        assert k == n.parent;
      }
    }
  }

  lemma SetLeafKeepsTree(m: Memory, sp: Space, n: Node, l: Leaf)
    requires TreeInv(m, sp) && n.Child? && n.parent in sp.tables && n.index < WORDS_PER_PAGE && Depth(n) == 4
    ensures Pack(l.frame, EntryFlags(l.flags)) < WORD_LIMIT
    ensures TreeInv(Write(m, sp.tables[n.parent], n.index, Pack(l.frame, EntryFlags(l.flags))), WithLeaf(sp, n, l))
  {
    hide Pack, EntryFlags, Write, EntryAt, Rooted;
    LeafEntry(l.frame, l.flags);
    WithLeafRooted(sp, n, l);
    WriteEntry(m, sp, WithLeaf(sp, n, l), n);
  }

  lemma WithLeafRooted(sp: Space, n: Node, l: Leaf)
    requires Rooted(sp) && n.Child? && n.parent in sp.tables && n.index < WORDS_PER_PAGE && Depth(n) == 4
    ensures Rooted(WithLeaf(sp, n, l)) && n !in sp.tables
  {}

  lemma ClearLeafKeepsTree(m: Memory, sp: Space, n: Node)
    requires TreeInv(m, sp) && n in sp.leaves
    ensures n.Child? && n.parent in sp.tables && n.index < WORDS_PER_PAGE
    ensures TreeInv(Write(m, sp.tables[n.parent], n.index, 0), WithoutLeaf(sp, n))
  {
    hide Pack, EntryFlags;
    assert n !in sp.tables;
    WriteEntry(m, sp, WithoutLeaf(sp, n), n);
  }

  /** Linking a zeroed frame in as the table of an absent node. */
  lemma AddTableKeepsTree(m: Memory, sp: Space, n: Node, f: Frame)
    requires TreeInv(m, sp) && n.Child? && n.parent in sp.tables && n.index < WORDS_PER_PAGE && Depth(n) <= 3
    requires n !in sp.tables && f !in sp.tables.Values
    ensures Pack(f, TABLE_FLAGS) < WORD_LIMIT
    ensures TreeInv(Write(m[f := ZeroPage()], sp.tables[n.parent], n.index, Pack(f, TABLE_FLAGS)), WithTable(sp, n, f))
  {
    hide Pack, ZeroPage, Write, EntryOf;
    TableEntry(f);
    var sp' := WithTable(sp, n, f);
    var m' := Write(m[f := ZeroPage()], sp.tables[n.parent], n.index, Pack(f, TABLE_FLAGS));
    WithTableRooted(sp, n, f);
    forall k, i | k in sp'.tables && 0 <= i < WORDS_PER_PAGE ensures EntryAt(m', sp', k, i) {
      if k == n {
        NewTableIsEmpty(sp, n, f, i);
      } else {
        assert sp.tables[k] in sp.tables.Values;
        OldTableEntry(m, sp, n, f, k, i);
      }
    }
  }

  lemma WithTableRooted(sp: Space, n: Node, f: Frame)
    requires Rooted(sp) && TableFramesDistinct(sp) && f !in sp.tables.Values
    requires n.Child? && n.parent in sp.tables && n.index < WORDS_PER_PAGE && Depth(n) <= 3 && n !in sp.tables
    ensures Rooted(WithTable(sp, n, f)) && TableFramesDistinct(WithTable(sp, n, f))
    ensures f != sp.tables[n.parent]
  {
    forall k | k in sp.tables ensures sp.tables[k] != f { assert sp.tables[k] in sp.tables.Values; }
  }

  lemma OldTableEntry(m: Memory, sp: Space, n: Node, f: Frame, k: Node, i: nat)
    requires TreeInv(m, sp) && n.Child? && n.parent in sp.tables && n.index < WORDS_PER_PAGE
    requires n !in sp.tables && k in sp.tables && sp.tables[k] != f && f != sp.tables[n.parent] && i < WORDS_PER_PAGE
    requires Pack(f, TABLE_FLAGS) < WORD_LIMIT && k != n
    ensures EntryAt(Write(m[f := ZeroPage()], sp.tables[n.parent], n.index, Pack(f, TABLE_FLAGS)), WithTable(sp, n, f), k, i)
  {
    hide Pack, ZeroPage, Write, EntryFlags;
    assert EntryAt(m, sp, k, i);
    assert sp.tables[k] == sp.tables[n.parent] ==> k == n.parent;
  }

  /** Nothing hangs below a node that was not in the tree. */
  lemma NewTableIsEmpty(sp: Space, n: Node, f: Frame, i: nat)
    requires Rooted(sp) && n !in sp.tables
    ensures EntryOf(WithTable(sp, n, f), Child(n, i)) == 0
  {
    var c := Child(n, i);
    assert c !in sp.tables && c !in sp.leaves;
    assert Depth(c) != Depth(n);
  }
}
