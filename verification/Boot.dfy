/** Early boot: sizing the frame bitmap, carving it out of usable memory and donating the rest. */
module Boot {
  import opened Addr
  import opened PhysMem
  import opened Frames
  import opened Results

  /** One entry of the boot memory map. */
  datatype MemEntry = MemEntry(base: int, length: int, usable: bool) {
    function End(): int { base + length }
  }

  /** Usable entries lie in the physical address space, below its last page. */
  predicate GoodEntry(e: MemEntry)
  {
    e.usable ==> 0 <= e.base && 0 <= e.length && e.End() <= PHYS_LIMIT - PAGE_SIZE
  }

  ghost predicate GoodMap(es: seq<MemEntry>)
  {
    && (forall i :: 0 <= i < |es| ==> GoodEntry(es[i]))
    && forall i, j :: 0 <= i < j < |es| && es[i].usable && es[j].usable ==> EntriesApart(es[i], es[j])
  }

  predicate EntriesApart(a: MemEntry, b: MemEntry)
  {
    a.End() <= b.base || b.End() <= a.base
  }

  /** The whole frames of one entry. */
  ghost function EntryFrames(e: MemEntry): set<Frame>
  {
    if e.usable then WholeFrames(e.base, e.length) else {}
  }

  /** Frame `f` lies outside `[lo, hi)`. */
  predicate FrameOutside(f: Frame, lo: int, hi: int) { (f + 1) * PAGE_SIZE <= lo || hi <= f * PAGE_SIZE }

  /** Those of the frames that share no byte with `[lo, hi)`. */
  ghost function Outside(fs: set<Frame>, lo: int, hi: int): set<Frame>
  {
    set f | f in fs && FrameOutside(f, lo, hi)
  }

  /** The frames of the first `n` entries. */
  ghost function UsableFrames(es: seq<MemEntry>, n: nat): set<Frame>
    requires n <= |es|
  {
    if n == 0 then {} else UsableFrames(es, n - 1) + EntryFrames(es[n - 1])
  }

  lemma {:induction false} EntryApartFromEarlier(es: seq<MemEntry>, n: nat, k: nat)
    requires GoodMap(es) && n <= k < |es|
    ensures UsableFrames(es, n) !! EntryFrames(es[k])
    decreases n
  {
    if n > 0 {
      EntryApartFromEarlier(es, n - 1, k);
      var a, b := es[n - 1], es[k];
      if a.usable && b.usable {
        assert EntriesApart(a, b) && GoodEntry(a) && GoodEntry(b);
        SpansApart(a, b);
      }
    }
  }

  lemma SpansApart(a: MemEntry, b: MemEntry)
    requires a.usable && b.usable && GoodEntry(a) && GoodEntry(b) && EntriesApart(a, b)
    ensures EntryFrames(a) !! EntryFrames(b)
  {
    forall f: Frame | f in EntryFrames(a) ensures f !in EntryFrames(b) {}
  }

  /** `ceil(frames / 8)` rounded up to whole pages. */
  function BitmapSize(maxPhys: nat): nat
  {
    var totalFrames := (maxPhys + PAGE_SIZE - 1) / PAGE_SIZE;
    var bitmapBytes := (totalFrames + 7) / 8;
    (bitmapBytes + PAGE_SIZE - 1) / PAGE_SIZE * PAGE_SIZE
  }

  lemma BitmapCovers(maxPhys: nat)
    ensures BitmapSize(maxPhys) % PAGE_SIZE == 0
    ensures BitmapSize(maxPhys) >= ((maxPhys + PAGE_SIZE - 1) / PAGE_SIZE + 7) / 8
    ensures 8 * BitmapSize(maxPhys) * PAGE_SIZE >= maxPhys
  {
    var total := (maxPhys + PAGE_SIZE - 1) / PAGE_SIZE;
    assert total * PAGE_SIZE >= maxPhys;
    var bytes := (total + 7) / 8;
    assert 8 * bytes >= total;
    var pages := (bytes + PAGE_SIZE - 1) / PAGE_SIZE;
    assert pages * PAGE_SIZE >= bytes;
  }

  /** No smaller whole number of pages has a bit for every frame below `maxPhys`. */
  lemma BitmapIsLeast(maxPhys: nat, b: nat)
    requires b % PAGE_SIZE == 0 && 8 * b * PAGE_SIZE >= maxPhys
    ensures BitmapSize(maxPhys) <= b
  {
    var total := (maxPhys + PAGE_SIZE - 1) / PAGE_SIZE;
    assert total <= 8 * b;
    var bytes := (total + 7) / 8;
    assert bytes <= b;
    var pages := (bytes + PAGE_SIZE - 1) / PAGE_SIZE;
    assert b == b / PAGE_SIZE * PAGE_SIZE;
    assert pages <= b / PAGE_SIZE;
  }

  /** The highest end of a usable entry. */
  ghost predicate IsTop(es: seq<MemEntry>, top: int)
  {
    && (forall i :: 0 <= i < |es| && es[i].usable ==> es[i].End() <= top)
    && exists i :: 0 <= i < |es| && es[i].usable && es[i].End() == top
  }

  method MaxPhys(es: seq<MemEntry>) returns (r: Option<int>)
    ensures r.None? <==> forall i :: 0 <= i < |es| ==> !es[i].usable
    ensures r.Some? ==> IsTop(es, r.value)
  {
    r := None;
    for k := 0 to |es|
      invariant r.None? <==> forall i :: 0 <= i < k ==> !es[i].usable
      invariant r.Some? ==> forall i :: 0 <= i < k && es[i].usable ==> es[i].End() <= r.value
      invariant r.Some? ==> exists i :: 0 <= i < k && es[i].usable && es[i].End() == r.value
    {
      if es[k].usable && (r.None? || r.value < es[k].End()) {
        r := Some(es[k].End());
      }
    }
  }

  /** The first usable entry that can hold the bitmap. */
  method FindHome(es: seq<MemEntry>, size: int) returns (r: Option<nat>)
    ensures r.None? <==> forall i :: 0 <= i < |es| && es[i].usable ==> es[i].length < size
    ensures r.Some? ==> r.value < |es| && es[r.value].usable && es[r.value].length >= size
    ensures r.Some? ==> forall i :: 0 <= i < r.value && es[i].usable ==> es[i].length < size
  {
    for k := 0 to |es|
      invariant forall i :: 0 <= i < k && es[i].usable ==> es[i].length < size
    {
      if es[k].usable && es[k].length >= size {
        return Some(k);
      }
    }
    r := None;
  }

  /** The part of an entry below the bitmap and the part above it are what lies outside it. */
  lemma PartsOutsideBitmap(e: MemEntry, lo: int, hi: int)
    requires e.usable && GoodEntry(e) && 0 <= lo <= hi
    ensures var below := if e.base < lo then WholeFrames(e.base, Min(lo, e.End()) - e.base) else {};
            var above := if e.End() > hi then WholeFrames(Max(hi, e.base), e.End() - Max(hi, e.base)) else {};
            && below + above == Outside(EntryFrames(e), lo, hi)
            && below !! above
  {
    var below := if e.base < lo then WholeFrames(e.base, Min(lo, e.End()) - e.base) else {};
    var above := if e.End() > hi then WholeFrames(Max(hi, e.base), e.End() - Max(hi, e.base)) else {};
    forall f: Frame ensures f in below + above <==> f in Outside(EntryFrames(e), lo, hi) {}
    forall f: Frame | f in below ensures f !in above {}
  }

  function Min(a: int, b: int): int { if a <= b then a else b }

  function Max(a: int, b: int): int { if a >= b then a else b }

  lemma NoFrames(at: int)
    requires 0 <= at
    ensures WholeFrames(at, 0) == {}
  {
    NoWholeFrames(at, 0);
  }

  /** Donates the range `[from, to)` unless it is empty. */
  method DonatePart(a: BitmapAllocator, from: int, to: int)
    requires a.Valid() && 0 <= from <= to <= 8 * a.bitmap.Length * PAGE_SIZE && to <= PHYS_LIMIT - PAGE_SIZE
    requires WholeFrames(from, to - from) !! a.Donated()
    modifies a, a.mem, a.bitmap
    ensures a.Valid() && a.out == old(a.out)
    ensures a.Donated() == old(a.Donated()) + WholeFrames(from, to - from)
  {
    hide FrameInv, WholeFrames;
    var len := to - from;
    if len > 0 {
      var ok := a.AddRegion(from, len);
    } else {
      NoFrames(from);
    }
  }

  /** Donates what an entry has outside the bitmap `[lo, hi)`. */
  method DonateEntry(a: BitmapAllocator, e: MemEntry, lo: int, hi: int)
    requires a.Valid() && e.usable && GoodEntry(e) && e.End() <= 8 * a.bitmap.Length * PAGE_SIZE
    requires 0 <= lo <= hi && EntryFrames(e) !! a.Donated()
    modifies a, a.mem, a.bitmap
    ensures a.Valid() && a.out == old(a.out)
    ensures a.Donated() == old(a.Donated()) + Outside(EntryFrames(e), lo, hi)
  {
    hide FrameInv, EntryFrames, WholeFrames, FrameOutside;
    PartsOutsideBitmap(e, lo, hi);
    if e.base < lo {
      DonatePart(a, e.base, Min(lo, e.End()));
    }
    if e.End() > hi {
      DonatePart(a, Max(hi, e.base), e.End());
    }
  }

  /** Boot initialisation; `None` is one of the two panics on an unsuitable memory map. */
  method Init(mem: PhysicalMemory, es: seq<MemEntry>) returns (r: Option<BitmapAllocator>, ghost home: int, ghost size: int)
    requires mem.Valid() && GoodMap(es)
    modifies mem
    ensures r.None? <==> forall i, top: nat :: 0 <= i < |es| && es[i].usable && IsTop(es, top) ==> es[i].length < BitmapSize(top)
    ensures r.None? ==> mem.pages == old(mem.pages)
    ensures r.Some? ==> exists top: nat :: IsTop(es, top) && size == BitmapSize(top)
    ensures r.Some? ==>
      var a := r.value;
      && fresh(a) && fresh(a.bitmap) && a.mem == mem && a.Valid() && a.out == {}
      && a.Donated() == Outside(UsableFrames(es, |es|), home, home + size)
      && |a.stack| == |a.Donated()|
      && forall f: Frame :: f in a.Donated() ==> f < a.total && f < 8 * a.bitmap.Length
    ensures r.Some? ==>
      exists i :: 0 <= i < |es| && es[i].usable && es[i].base == home && size <= es[i].length
                  && forall j :: 0 <= j < i && es[j].usable ==> es[j].length < size
  {
    hide FrameInv, BitmapSize;
    home, size := 0, 0;
    var maxPhys := MaxPhys(es);
    if maxPhys.None? {
      return None, home, size;
    }
    var bitmapSize := BitmapSize(maxPhys.value);
    BitmapCovers(maxPhys.value);
    var entry := FindHome(es, bitmapSize);
    if entry.None? {
      return None, home, size;
    }
    assert GoodEntry(es[entry.value]);
    home, size := es[entry.value].base, bitmapSize;
    var bitmap := new Byte[bitmapSize](_ => 0);
    var a := new BitmapAllocator(mem, bitmap, maxPhys.value);
    DonateAll(a, es, es[entry.value].base, bitmapSize, maxPhys.value);
    r := Some(a);
  }

  method DonateAll(a: BitmapAllocator, es: seq<MemEntry>, lo: int, size: int, ghost maxPhys: int)
    requires a.Valid() && a.out == {} && a.stack == [] && GoodMap(es)
    requires 0 <= lo && 0 <= size
    requires forall i :: 0 <= i < |es| && es[i].usable ==> es[i].End() <= maxPhys
    requires maxPhys <= 8 * a.bitmap.Length * PAGE_SIZE && a.total == (maxPhys + PAGE_SIZE - 1) / PAGE_SIZE
    modifies a, a.mem, a.bitmap
    ensures a.Valid() && a.out == {}
    ensures a.Donated() == Outside(UsableFrames(es, |es|), lo, lo + size)
    ensures |a.stack| == |a.Donated()|
    ensures forall f: Frame :: f in a.Donated() ==> f < a.total && f < 8 * a.bitmap.Length
  {
    hide FrameInv, EntryFrames, FrameOutside;
    var hi := lo + size;
    for k := 0 to |es|
      invariant a.Valid() && a.out == {}
      invariant a.Donated() == Outside(UsableFrames(es, k), lo, hi)
    {
      assert GoodEntry(es[k]);
      if es[k].usable {
        EntryApartFromEarlier(es, k, k);
        DonateEntry(a, es[k], lo, hi);
      } else {
        UnusableIsEmpty(es[k]);
      }
    }
    AllFree(a.mem.pages, a.bitmap[..], a.freeListHead, a.free, a.stack, a.out);
    forall f: Frame | f in a.Donated() ensures f < a.total && f < 8 * a.bitmap.Length {
      UsableBelow(es, |es|, maxPhys, f);
    }
  }

  lemma UnusableIsEmpty(e: MemEntry)
    requires !e.usable
    ensures EntryFrames(e) == {}
  {}

  lemma AllFree(m: Memory, bits: seq<Byte>, head: int, free: int, stack: seq<Frame>, out: set<Frame>)
    requires FrameInv(m, bits, head, free, stack, out) && out == {}
    ensures |stack| == |out + Members(stack)|
    ensures forall f: Frame :: f in stack ==> f < 8 * |bits|
  {
    StackSize(stack);
    assert out + Members(stack) == Members(stack);
  }

  lemma {:induction false} StackSize(stack: seq<Frame>)
    requires Distinct(stack)
    ensures |Members(stack)| == |stack|
    decreases |stack|
  {
    if stack != [] {
      var n := |stack| - 1;
      StackSize(stack[..n]);
      assert stack == stack[..n] + [stack[n]];
      assert Members(stack) == Members(stack[..n]) + {stack[n]};
    }
  }

  lemma {:induction false} UsableBelow(es: seq<MemEntry>, n: nat, limit: int, f: Frame)
    requires n <= |es| && f in UsableFrames(es, n)
    requires forall i :: 0 <= i < |es| && es[i].usable ==> es[i].End() <= limit
    ensures f < (limit + PAGE_SIZE - 1) / PAGE_SIZE
    decreases n
  {
    if f in EntryFrames(es[n - 1]) {
      assert es[n - 1].usable && (f + 1) * PAGE_SIZE <= es[n - 1].End();
    } else {
      UsableBelow(es, n - 1, limit, f);
    }
  }
}
