/** Page table entries: a frame address and hardware flags packed into one word. */
module Entry {
  import opened Addr
  import opened Bits
  import opened PhysMem
  import opened Results

  /** Bits 12 to 51. */
  const PHYS_MASK: Word := 0x000f_ffff_ffff_f000

  // Hardware flags.
  const PRESENT: Word := 0x1
  const WRITABLE: Word := 0x2
  const USER: Word := 0x4
  const CACHE_DISABLE: Word := 0x10
  const HUGE_PAGE: Word := 0x80
  const GLOBAL: Word := 0x100
  const NO_EXECUTE: Word := 0x8000_0000_0000_0000

  /** The flags of an intermediate table entry. */
  const TABLE_FLAGS: Word := 0x7

  /** The six portable page flags as a bit set. */
  type PageFlags = p: int | 0 <= p < 64

  const PF_READ: PageFlags := 1
  const PF_WRITE: PageFlags := 2
  const PF_EXECUTE: PageFlags := 4
  const PF_USER: PageFlags := 8
  const PF_UNCACHED: PageFlags := 16
  const PF_GLOBAL: PageFlags := 32

  predicate Contains(x: nat, y: nat) { And(x, y) == y }

  /** `ef |= flag` under a condition. */
  function OrIf(x: nat, c: bool, flag: nat): nat { if c then Or(x, flag) else x }

  function EntryFlags(pf: PageFlags): nat
  {
    var e0 := PRESENT;
    var e1 := OrIf(e0, Contains(pf, PF_WRITE), WRITABLE);
    var e2 := OrIf(e1, Contains(pf, PF_USER), USER);
    var e3 := OrIf(e2, Contains(pf, PF_UNCACHED), CACHE_DISABLE);
    var e4 := OrIf(e3, Contains(pf, PF_GLOBAL), GLOBAL);
    OrIf(e4, !Contains(pf, PF_EXECUTE), NO_EXECUTE)
  }

  function PortableFlags(ef: nat): nat
  {
    var p0 := PF_READ;
    var p1 := OrIf(p0, Contains(ef, WRITABLE), PF_WRITE);
    var p2 := OrIf(p1, Contains(ef, USER), PF_USER);
    var p3 := OrIf(p2, Contains(ef, CACHE_DISABLE), PF_UNCACHED);
    var p4 := OrIf(p3, Contains(ef, GLOBAL), PF_GLOBAL);
    OrIf(p4, !Contains(ef, NO_EXECUTE), PF_EXECUTE)
  }

  function FlagsOf(e: Word): nat { And(e, WORD_LIMIT - 1 - PHYS_MASK) }

  predicate IsPresent(e: Word) { Contains(FlagsOf(e), PRESENT) }

  predicate IsHuge(e: Word) { Contains(FlagsOf(e), HUGE_PAGE) }

  function FrameOf(e: Word): Option<Frame>
  {
    AddressField(e);
    if IsPresent(e) then Some(And(e, PHYS_MASK) / PAGE_SIZE) else None
  }

  function Pack(f: Frame, flags: nat): nat { Or(And(f * PAGE_SIZE, PHYS_MASK), flags) }

  /** Flags that leave the address field alone. */
  predicate CleanFlags(flags: nat) { flags < WORD_LIMIT && And(flags, PHYS_MASK) == 0 }

  // ---------------------------------------------------------------------------------------
  // Bits of the constants
  // ---------------------------------------------------------------------------------------

  lemma {:induction false} BitIsDigit(x: nat, k: nat)
    ensures Bit(x, k) <==> x / Pow2(k) % 2 == 1
    decreases k
  {
    if k > 0 {
      BitIsDigit(x / 2, k - 1);
      DivDiv(x, 2, Pow2(k - 1));
    }
  }

  /** Adding a bit that is not set. */
  lemma OrNewBit(x: nat, k: nat, p: nat)
    requires p == Pow2(k) && x < p
    ensures Or(x, p) == x + p
  {
    BitIsDigit(x, k);
    AndPow2(x, k);
    AndPlusOr(x, p);
  }

  lemma ContainsIsDigit(x: nat, k: nat, p: nat)
    requires p == Pow2(k)
    ensures Contains(x, p) <==> x / p % 2 == 1
  {
    BitIsDigit(x, k);
    AndPow2(x, k);
  }

  lemma SmallPowers()
    ensures Pow2(0) == 1 && Pow2(1) == 2 && Pow2(2) == 4 && Pow2(3) == 8 && Pow2(4) == 16
    ensures Pow2(5) == 32 && Pow2(7) == 128 && Pow2(8) == 256
  {}

  lemma TopPower() returns (k: nat)
    ensures Pow2(k) == NO_EXECUTE
  {
    Pow2Values();
    k := 63;
    assert Pow2(64) == 2 * Pow2(63);
  }

  /** A digit of a flag word, as a number. */
  function Digit(c: bool, p: nat): nat { if c then p else 0 }

  /** What a bit set of portable flags says. */
  predicate Has(pf: nat, p: nat)
    requires p > 0
  {
    pf / p % 2 == 1
  }

  lemma PortableContains(pf: PageFlags)
    ensures Contains(pf, PF_WRITE) <==> Has(pf, 2)
    ensures Contains(pf, PF_EXECUTE) <==> Has(pf, 4)
    ensures Contains(pf, PF_USER) <==> Has(pf, 8)
    ensures Contains(pf, PF_UNCACHED) <==> Has(pf, 16)
    ensures Contains(pf, PF_GLOBAL) <==> Has(pf, 32)
  {
    SmallPowers();
    ContainsIsDigit(pf, 1, 2);
    ContainsIsDigit(pf, 2, 4);
    ContainsIsDigit(pf, 3, 8);
    ContainsIsDigit(pf, 4, 16);
    ContainsIsDigit(pf, 5, 32);
  }

  /** The entry flags are the sum of the flags asked for; execution is forbidden unless asked for. */
  lemma EntryFlagsAre(pf: PageFlags)
    ensures EntryFlags(pf) == 1 + Digit(Has(pf, 2), 2) + Digit(Has(pf, 8), 4) + Digit(Has(pf, 16), 16)
                              + Digit(Has(pf, 32), 256) + Digit(!Has(pf, 4), NO_EXECUTE)
  {
    hide Contains, Has, Or;
    PortableContains(pf);
    SmallPowers();
    var k := TopPower();
    var e1 := 1 + Digit(Has(pf, 2), 2);
    OrNewBit(1, 1, 2);
    var e2 := e1 + Digit(Has(pf, 8), 4);
    OrNewBit(e1, 2, 4);
    var e3 := e2 + Digit(Has(pf, 16), 16);
    OrNewBit(e2, 4, 16);
    var e4 := e3 + Digit(Has(pf, 32), 256);
    OrNewBit(e3, 8, 256);
    OrNewBit(e4, k, NO_EXECUTE);
  }

  lemma OrUnsetBit(x: nat, k: nat, p: nat)
    requires p == Pow2(k) && x / p % 2 == 0
    ensures Or(x, p) == x + p
  {
    BitIsDigit(x, k);
    AndPow2(x, k);
    AndPlusOr(x, p);
  }

  /** Reading the digits of an entry flag word back. */
  lemma FlagDigits(w: bool, u: bool, c: bool, g: bool, x: bool)
    ensures var ef := 1 + Digit(w, 2) + Digit(u, 4) + Digit(c, 16) + Digit(g, 256) + Digit(x, NO_EXECUTE);
            && ef % 2 == 1 && (ef / 2 % 2 == 1 <==> w) && (ef / 4 % 2 == 1 <==> u) && (ef / 16 % 2 == 1 <==> c)
            && (ef / 256 % 2 == 1 <==> g) && (ef / NO_EXECUTE % 2 == 1 <==> x)
            && ef / 128 % 2 == 0 && ef / 4096 % 0x100_0000_0000 == 0 && ef < WORD_LIMIT
  {}

  lemma EntryContains(ef: nat)
    ensures Contains(ef, WRITABLE) <==> ef / 2 % 2 == 1
    ensures Contains(ef, USER) <==> ef / 4 % 2 == 1
    ensures Contains(ef, CACHE_DISABLE) <==> ef / 16 % 2 == 1
    ensures Contains(ef, GLOBAL) <==> ef / 256 % 2 == 1
    ensures Contains(ef, NO_EXECUTE) <==> ef / NO_EXECUTE % 2 == 1
    ensures Contains(ef, PRESENT) <==> ef % 2 == 1
    ensures Contains(ef, HUGE_PAGE) <==> ef / 128 % 2 == 1
  {
    hide Contains;
    SmallPowers();
    var k := TopPower();
    ContainsIsDigit(ef, 0, 1);
    ContainsIsDigit(ef, 1, 2);
    ContainsIsDigit(ef, 2, 4);
    ContainsIsDigit(ef, 4, 16);
    ContainsIsDigit(ef, 7, 128);
    ContainsIsDigit(ef, 8, 256);
    ContainsIsDigit(ef, k, NO_EXECUTE);
  }

  lemma PortableFlagsAre(ef: nat, w: bool, u: bool, c: bool, g: bool, x: bool)
    requires Contains(ef, WRITABLE) == w && Contains(ef, USER) == u && Contains(ef, CACHE_DISABLE) == c
    requires Contains(ef, GLOBAL) == g && Contains(ef, NO_EXECUTE) == x
    ensures PortableFlags(ef) == 1 + Digit(w, 2) + Digit(u, 8) + Digit(c, 16) + Digit(g, 32) + Digit(!x, 4)
  {
    hide Contains, Or;
    SmallPowers();
    var p1 := 1 + Digit(w, 2);
    OrNewBit(1, 1, 2);
    var p2 := p1 + Digit(u, 8);
    OrNewBit(p1, 3, 8);
    var p3 := p2 + Digit(c, 16);
    OrNewBit(p2, 4, 16);
    var p4 := p3 + Digit(g, 32);
    OrNewBit(p3, 5, 32);
    OrUnsetBit(p4, 2, 4);
  }

  lemma PortableDigits(pf: PageFlags)
    ensures pf == Digit(pf % 2 == 1, 1) + Digit(Has(pf, 2), 2) + Digit(Has(pf, 4), 4) + Digit(Has(pf, 8), 8)
                  + Digit(Has(pf, 16), 16) + Digit(Has(pf, 32), 32)
  {}

  /** Converting portable flags to hardware flags and back adds READ and changes nothing else. */
  lemma FlagsRoundTrip(pf: PageFlags)
    ensures PortableFlags(EntryFlags(pf)) == Or(pf, PF_READ)
  {
    hide Contains, PortableFlags, EntryFlags;
    var ef := EntryFlags(pf);
    EntryFlagsAre(pf);
    FlagDigits(Has(pf, 2), Has(pf, 8), Has(pf, 16), Has(pf, 32), !Has(pf, 4));
    EntryContains(ef);
    PortableFlagsAre(ef, Has(pf, 2), Has(pf, 8), Has(pf, 16), Has(pf, 32), !Has(pf, 4));
    PortableDigits(pf);
    SmallPowers();
    OrRead(pf);
  }

  lemma OrRead(pf: nat)
    ensures Or(pf, PF_READ) == if pf % 2 == 1 then pf else pf + 1
  {
    AndPlusOr(pf, 1);
    AndUnfold(pf, 1);
    AndZero(pf / 2);
  }

  // ---------------------------------------------------------------------------------------
  // Packing
  // ---------------------------------------------------------------------------------------

  lemma {:induction false} AndOverOr(x: nat, y: nat, m: nat)
    ensures And(Or(x, y), m) == Or(And(x, m), And(y, m))
    decreases x + y
  {
    if x != 0 && y != 0 && m != 0 {
      AndOverOr(x / 2, y / 2, m / 2);
      OrUnfold(x, y);
      OrUnfold(And(x, m), And(y, m));
    }
  }

  lemma OrUnfold(x: nat, y: nat)
    ensures Or(x, y) == 2 * Or(x / 2, y / 2) + (if x % 2 == 1 || y % 2 == 1 then 1 else 0)
    ensures Or(x, y) / 2 == Or(x / 2, y / 2) && (Or(x, y) % 2 == 1 <==> x % 2 == 1 || y % 2 == 1)
  {}

  /** Masking with the address field keeps bits 12 to 51. */
  lemma AddressField(x: nat)
    ensures And(x, PHYS_MASK) == x / PAGE_SIZE % FRAME_COUNT * PAGE_SIZE
  {
    Pow2Values();
    var a: nat, b: nat := 12, 40;
    assert Pow2(a) == PAGE_SIZE && Pow2(b) == FRAME_COUNT;
    ShlMultiplies(FRAME_COUNT - 1, a);
    assert Shl(FRAME_COUNT - 1, a) == PHYS_MASK;
    AndShifted(x, FRAME_COUNT - 1, a);
    ShrDivides(x, a);
    AndLowMask(x / PAGE_SIZE, b);
    ShlMultiplies(x / PAGE_SIZE % FRAME_COUNT, a);
  }

  /** Address and flags are recovered from a packed entry. */
  lemma PackRoundTrip(f: Frame, flags: nat)
    requires CleanFlags(flags)
    ensures Pack(f, flags) < WORD_LIMIT
    ensures And(Pack(f, flags), PHYS_MASK) == f * PAGE_SIZE
    ensures FlagsOf(Pack(f, flags)) == flags
  {
    hide And, Or;
    var a := f * PAGE_SIZE;
    AddressField(a);
    assert And(a, PHYS_MASK) == a;
    AndOverOr(a, flags, PHYS_MASK);
    OrZero(a);
    FieldsAdd(f, flags);
    var n := WordWidth();
    AndComplement(Pack(f, flags), PHYS_MASK, n);
  }

  lemma OrZero(x: nat)
    ensures Or(x, 0) == x == Or(0, x)
  {}

  lemma FieldsAdd(f: Frame, flags: nat)
    requires CleanFlags(flags)
    ensures Or(f * PAGE_SIZE, flags) == f * PAGE_SIZE + flags < WORD_LIMIT
  {
    hide And, Or;
    var a := f * PAGE_SIZE;
    AddressField(flags);
    AndPlusOr(a, flags);
    DisjointFields(f, flags);
    SumFits(f, flags);
  }

  /** A word with an empty address field shares no bit with a frame address. */
  lemma DisjointFields(f: Frame, flags: nat)
    requires CleanFlags(flags)
    ensures And(f * PAGE_SIZE, flags) == 0
  {
    hide And, Or;
    var a := f * PAGE_SIZE;
    AddressField(a);
    assert And(a, PHYS_MASK) == a;
    AndAssoc(a, PHYS_MASK, flags);
    AndCommutes(PHYS_MASK, flags);
    AndZero(a);
  }

  lemma {:induction false} AndAssoc(x: nat, y: nat, z: nat)
    ensures And(And(x, y), z) == And(x, And(y, z))
    decreases x
  {
    AndUnfold(x, y);
    AndUnfold(y, z);
    AndUnfold(And(x, y), z);
    AndUnfold(x, And(y, z));
    if x != 0 { AndAssoc(x / 2, y / 2, z / 2); }
  }

  lemma {:induction false} AndCommutes(x: nat, y: nat)
    ensures And(x, y) == And(y, x)
    decreases x
  {
    AndUnfold(x, y);
    AndUnfold(y, x);
    if x != 0 { AndCommutes(x / 2, y / 2); }
  }

  lemma SumFits(f: Frame, flags: nat)
    requires flags < WORD_LIMIT && flags / PAGE_SIZE % FRAME_COUNT == 0
    ensures f * PAGE_SIZE + flags < WORD_LIMIT
  {
    var hi := flags / PAGE_SIZE / FRAME_COUNT;
    assert flags / PAGE_SIZE == hi * FRAME_COUNT;
  }

  // ---------------------------------------------------------------------------------------
  // The three kinds of entries the mapper writes
  // ---------------------------------------------------------------------------------------

  lemma CleanByDigits(flags: nat)
    requires flags < WORD_LIMIT && flags / PAGE_SIZE % FRAME_COUNT == 0
    ensures CleanFlags(flags)
  {
    AddressField(flags);
  }

  /** An intermediate entry: present, not huge, pointing at its table. */
  lemma TableEntry(f: Frame)
    ensures Pack(f, TABLE_FLAGS) < WORD_LIMIT
    ensures IsPresent(Pack(f, TABLE_FLAGS)) && !IsHuge(Pack(f, TABLE_FLAGS))
    ensures FrameOf(Pack(f, TABLE_FLAGS)) == Some(f) && FlagsOf(Pack(f, TABLE_FLAGS)) == 7
  {
    hide And, Or, Pack, Contains, FlagsOf;
    CleanByDigits(TABLE_FLAGS);
    PackRoundTrip(f, TABLE_FLAGS);
    EntryContains(TABLE_FLAGS);
  }

  /** A leaf entry: present, not huge, with its frame and the flags it was made from. */
  lemma LeafEntry(f: Frame, pf: PageFlags)
    ensures Pack(f, EntryFlags(pf)) < WORD_LIMIT
    ensures IsPresent(Pack(f, EntryFlags(pf))) && !IsHuge(Pack(f, EntryFlags(pf)))
    ensures FrameOf(Pack(f, EntryFlags(pf))) == Some(f)
    ensures PortableFlags(FlagsOf(Pack(f, EntryFlags(pf)))) == Or(pf, PF_READ)
  {
    hide And, Or, Pack, Contains, FlagsOf, EntryFlags, PortableFlags;
    var ef := EntryFlags(pf);
    EntryFlagsAre(pf);
    FlagDigits(Has(pf, 2), Has(pf, 8), Has(pf, 16), Has(pf, 32), !Has(pf, 4));
    CleanByDigits(ef);
    PackRoundTrip(f, ef);
    EntryContains(ef);
    FlagsRoundTrip(pf);
  }

  lemma EmptyEntry()
    ensures !IsPresent(0) && FrameOf(0) == None
  {
    AndZero(WORD_LIMIT - 1 - PHYS_MASK);
  }

  // ---------------------------------------------------------------------------------------
  // The raw bits
  // ---------------------------------------------------------------------------------------

  /** The bit of weight `p` is set. */
  predicate Set(e: int, p: int)
    requires p > 0
  {
    e / p % 2 == 1
  }

  /** Adding a multiple of `2 * p` does not change the bit of weight `p`. */
  lemma BitBelow(a: nat, flags: nat, p: nat)
    requires p > 0
    ensures Set(2 * a * p + flags, p) <==> Set(flags, p)
  {
    var q, r := flags / p, flags % p;
    assert flags == q * p + r;
    assert (2 * a + q) * p == 2 * a * p + q * p;
    DivModUnique(2 * a * p + flags, p, 2 * a + q, r);
  }

  lemma LowBits(f: Frame, flags: nat)
    ensures var e := f * PAGE_SIZE + flags;
            && (Set(e, 1) <==> Set(flags, 1)) && (Set(e, 2) <==> Set(flags, 2)) && (Set(e, 4) <==> Set(flags, 4))
            && (Set(e, 16) <==> Set(flags, 16)) && (Set(e, 128) <==> Set(flags, 128)) && (Set(e, 256) <==> Set(flags, 256))
  {
    hide Set;
    BitBelow(f * 2048, flags, 1);
    BitBelow(f * 1024, flags, 2);
    BitBelow(f * 512, flags, 4);
    BitBelow(f * 128, flags, 16);
    BitBelow(f * 16, flags, 128);
    BitBelow(f * 8, flags, 256);
  }

  lemma HighBits(f: Frame, flags: nat)
    requires flags < WORD_LIMIT && flags / PAGE_SIZE % FRAME_COUNT == 0
    ensures var e := f * PAGE_SIZE + flags;
            && e / PAGE_SIZE % FRAME_COUNT == f && (Set(e, 0x8000_0000_0000_0000) <==> Set(flags, 0x8000_0000_0000_0000))
  {
    var e, low, hi := f * PAGE_SIZE + flags, flags % PAGE_SIZE, flags / PAGE_SIZE / FRAME_COUNT;
    assert flags / PAGE_SIZE == hi * FRAME_COUNT;
    assert flags == hi * FRAME_COUNT * PAGE_SIZE + low;
    assert e / PAGE_SIZE == f + hi * FRAME_COUNT;
  }

  /** A packed entry holds the frame number in bits 12 to 51 and each flag at its own bit. */
  lemma PackedBits(f: Frame, flags: nat)
    requires flags < WORD_LIMIT && flags / PAGE_SIZE % FRAME_COUNT == 0
    ensures var e := Pack(f, flags);
            && e == f * PAGE_SIZE + flags < WORD_LIMIT
  {
    hide And, Or;
    CleanByDigits(flags);
    AddressField(f * PAGE_SIZE);
    FieldsAdd(f, flags);
  }

  /** The bits of the entry of a table. */
  lemma TableBits(f: Frame)
    ensures var e := Pack(f, TABLE_FLAGS);
            && e < WORD_LIMIT && Set(e, 1) && Set(e, 2) && Set(e, 4) && !Set(e, 128) && !Set(e, 0x8000_0000_0000_0000)
            && e / PAGE_SIZE % FRAME_COUNT == f
  {
    hide Pack;
    PackedBits(f, TABLE_FLAGS);
    LowBits(f, TABLE_FLAGS);
    HighBits(f, TABLE_FLAGS);
  }

  /** The bits of the entry of a page: one per portable flag, with execution inverted. */
  lemma LeafBits(f: Frame, pf: PageFlags)
    ensures var e := Pack(f, EntryFlags(pf));
            && e < WORD_LIMIT && Set(e, 1) && !Set(e, 128) && e / PAGE_SIZE % FRAME_COUNT == f
            && (Set(e, 2) <==> Set(pf, 2)) && (Set(e, 4) <==> Set(pf, 8)) && (Set(e, 16) <==> Set(pf, 16))
            && (Set(e, 256) <==> Set(pf, 32)) && (Set(e, 0x8000_0000_0000_0000) <==> !Set(pf, 4))
  {
    hide Pack, EntryFlags;
    var ef := EntryFlags(pf);
    EntryFlagsAre(pf);
    FlagDigits(Has(pf, 2), Has(pf, 8), Has(pf, 16), Has(pf, 32), !Has(pf, 4));
    PackedBits(f, ef);
    LowBits(f, ef);
    HighBits(f, ef);
  }
}
