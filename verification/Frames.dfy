/** The physical frame allocator: a bitmap beside a free list threaded through the free frames. */
module Frames {
  import opened Addr
  import opened Bits
  import FreeRuns
  import opened PhysMem
  import opened Results

  /** The end-of-list marker, `usize::MAX`. */
  const FREE_LIST_EMPTY: Word := WORD_LIMIT - 1

  /** Physical addresses are below 2^52. */
  const PHYS_LIMIT := 0x10_0000_0000_0000

  type Byte = b: int | 0 <= b < 256

  // ---------------------------------------------------------------------------------------
  // The bitmap
  // ---------------------------------------------------------------------------------------

  /** Bit `f` of the bitmap. */
  predicate Marked(bits: seq<Byte>, f: nat)
    requires f < 8 * |bits|
  {
    Bit(bits[f / 8], f % 8)
  }

  lemma {:induction false} OrBound(x: nat, y: nat, n: nat)
    requires x < Pow2(n) && y < Pow2(n)
    ensures Or(x, y) < Pow2(n)
    decreases n
  {
    if n > 0 && x != 0 && y != 0 {
      OrBound(x / 2, y / 2, n - 1);
    }
  }

  lemma {:induction false} AndBound(x: nat, y: nat)
    ensures And(x, y) <= x
    decreases x
  {
    if x != 0 && y != 0 { AndBound(x / 2, y / 2); }
  }

  function SetMask(b: Byte, k: nat): Byte
    requires k < 8
  {
    MaskFits(b, k);
    Or(b, Pow2(k))
  }

  function ClearMask(b: Byte, k: nat): Byte
    requires k < 8
  {
    MaskFits(b, k);
    And(b, 255 - Pow2(k))
  }

  lemma MaskFits(b: Byte, k: nat)
    requires k < 8
    ensures Or(b, Pow2(k)) < 256 && Pow2(k) <= 255 && And(b, 255 - Pow2(k)) < 256
  {
    Pow2Values();
    var n: nat := 8;
    assert Pow2(n) == 256;
    Pow2Monotone(k, n);
    OrBound(b, Pow2(k), n);
    AndBound(b, 255 - Pow2(k));
  }

  lemma MaskBits(b: Byte, k: nat, j: nat)
    requires k < 8 && j < 8
    ensures Bit(SetMask(b, k), j) <==> j == k || Bit(b, j)
    ensures Bit(ClearMask(b, k), j) <==> j != k && Bit(b, j)
  {
    MaskFits(b, k);
    var n: nat := 8;
    assert Pow2(n) == 256 by { Pow2Values(); }
    BitOr(b, Pow2(k), j);
    BitPow2(k, j);
    BitAnd(b, 255 - Pow2(k), j);
    BitHoleMask(n, k, j);
  }

  /** Writing one byte through a mask changes the mark of one frame. */
  lemma MarksAfterSet(bits: seq<Byte>, f: nat, g: nat)
    requires f < 8 * |bits| && g < 8 * |bits|
    ensures Marked(bits[f / 8 := SetMask(bits[f / 8], f % 8)], g) <==> g == f || Marked(bits, g)
    ensures Marked(bits[f / 8 := ClearMask(bits[f / 8], f % 8)], g) <==> g != f && Marked(bits, g)
  {
    MaskBits(bits[f / 8], f % 8, g % 8);
    assert f == 8 * (f / 8) + f % 8 && g == 8 * (g / 8) + g % 8;
  }

  // ---------------------------------------------------------------------------------------
  // The list
  // ---------------------------------------------------------------------------------------

  /** The physical address of entry `i`, or the end marker. */
  function NodeAddr(stack: seq<Frame>, i: nat): int
  {
    if i < |stack| then stack[i] * PAGE_SIZE else FREE_LIST_EMPTY
  }

  ghost predicate NodeAt(m: Memory, stack: seq<Frame>, i: nat)
    requires |m| == FRAME_COUNT && i < |stack|
  {
    m[stack[i]][0] == NodeAddr(stack, i + 1)
  }

  ghost predicate Distinct(stack: seq<Frame>)
  {
    forall i, j :: 0 <= i < j < |stack| ==> stack[i] != stack[j]
  }

  /** The list in memory is `stack`: the first word of each free frame points at the next one. */
  ghost predicate Threaded(m: Memory, head: int, stack: seq<Frame>)
    requires |m| == FRAME_COUNT
  {
    head == NodeAddr(stack, 0) && forall i :: 0 <= i < |stack| ==> NodeAt(m, stack, i)
  }

  /** A frame is marked exactly when it is handed out and not returned. */
  ghost predicate MarksAre(bits: seq<Byte>, out: set<Frame>)
  {
    && (forall f :: f in out ==> f < 8 * |bits|)
    && forall f :: 0 <= f < 8 * |bits| ==> (Marked(bits, f) <==> f in out)
  }

  ghost predicate FrameInv(m: Memory, bits: seq<Byte>, head: int, free: int, stack: seq<Frame>, out: set<Frame>)
  {
    && |m| == FRAME_COUNT
    && Threaded(m, head, stack) && Distinct(stack) && free == |stack|
    && MarksAre(bits, out)
    && (forall i :: 0 <= i < |stack| ==> stack[i] < 8 * |bits| && stack[i] !in out)
  }

  /** Writes to frames outside the list do not disturb it. */
  lemma ListIgnoresOtherFrames(m: Memory, m': Memory, head: int, stack: seq<Frame>)
    requires |m| == |m'| == FRAME_COUNT && Threaded(m, head, stack)
    requires forall f: Frame :: f in stack ==> m'[f] == m[f]
    ensures Threaded(m', head, stack)
  {
    forall i | 0 <= i < |stack| ensures NodeAt(m', stack, i) {
      assert NodeAt(m, stack, i) && stack[i] in stack;
    }
  }

  /** Writes to frames that are handed out keep the allocator's invariant. */
  lemma InvariantIgnoresOwnedFrames(m: Memory, m': Memory, bits: seq<Byte>, head: int, free: int, stack: seq<Frame>, out: set<Frame>)
    requires FrameInv(m, bits, head, free, stack, out) && |m'| == FRAME_COUNT
    requires forall f: Frame :: f !in out ==> m'[f] == m[f]
    ensures FrameInv(m', bits, head, free, stack, out)
  {
    ListIgnoresOtherFrames(m, m', head, stack);
  }

  lemma PushFrame(m: Memory, head: int, stack: seq<Frame>, f: Frame)
    requires |m| == FRAME_COUNT && Threaded(m, head, stack) && Distinct(stack) && f !in stack
    requires 0 <= head < WORD_LIMIT
    ensures Threaded(Write(m, f, 0, head), f * PAGE_SIZE, [f] + stack) && Distinct([f] + stack)
  {
    var m', s := Write(m, f, 0, head), [f] + stack;
    forall i | 0 <= i < |s| ensures NodeAt(m', s, i) {
      if i > 0 {
        assert NodeAt(m, stack, i - 1);
        assert s[i] == stack[i - 1] && s[i] in stack;
      }
    }
  }

  lemma PopFrame(m: Memory, head: int, stack: seq<Frame>)
    requires |m| == FRAME_COUNT && Threaded(m, head, stack) && stack != []
    ensures head == stack[0] * PAGE_SIZE
    ensures Threaded(m, m[stack[0]][0], stack[1..])
  {
    assert NodeAt(m, stack, 0);
    var s := stack[1..];
    forall i | 0 <= i < |s| ensures NodeAt(m, s, i) {
      assert NodeAt(m, stack, i + 1);
    }
  }

  lemma MarksAfterAlloc(bits: seq<Byte>, out: set<Frame>, f: Frame)
    requires MarksAre(bits, out) && f < 8 * |bits|
    ensures MarksAre(bits[f / 8 := SetMask(bits[f / 8], f % 8)], out + {f})
  {
    var bits' := bits[f / 8 := SetMask(bits[f / 8], f % 8)];
    forall g | 0 <= g < 8 * |bits'| ensures Marked(bits', g) <==> g in out + {f} {
      MarksAfterSet(bits, f, g);
    }
  }

  lemma MarksAfterFree(bits: seq<Byte>, out: set<Frame>, f: Frame)
    requires MarksAre(bits, out) && f < 8 * |bits|
    ensures MarksAre(bits[f / 8 := ClearMask(bits[f / 8], f % 8)], out - {f})
  {
    var bits' := bits[f / 8 := ClearMask(bits[f / 8], f % 8)];
    forall g | 0 <= g < 8 * |bits'| ensures Marked(bits', g) <==> g in out - {f} {
      MarksAfterSet(bits, f, g);
    }
  }

  /** The frames of a list, as a set. */
  ghost function Members(stack: seq<Frame>): set<Frame>
  {
    set f | f in stack
  }

  /** The frames that lie wholly inside `[base, base + len)`. */
  ghost function WholeFrames(base: int, len: int): set<Frame>
  {
    set f: Frame | base <= f * PAGE_SIZE && f * PAGE_SIZE + PAGE_SIZE <= base + len
  }

  class BitmapAllocator {
    const mem: PhysicalMemory
    const bitmap: array<Byte>
    const total: nat
    var freeListHead: int
    var free: nat

    /** The free list from its head, and the frames handed out. */
    ghost var stack: seq<Frame>
    ghost var out: set<Frame>

    ghost predicate Valid()
      reads this, mem, bitmap
    {
      FrameInv(mem.pages, bitmap[..], freeListHead, free, stack, out)
    }

    /** Every frame ever given to the allocator. */
    ghost function Donated(): set<Frame>
      reads this
    {
      out + Members(stack)
    }

    constructor (mem: PhysicalMemory, bitmap: array<Byte>, maxPhys: nat)
      requires mem.Valid() && forall i :: 0 <= i < bitmap.Length ==> bitmap[i] == 0
      requires bitmap.Length >= ((maxPhys + PAGE_SIZE - 1) / PAGE_SIZE + 7) / 8
      ensures this.mem == mem && this.bitmap == bitmap
      ensures Valid() && stack == [] && out == {} && total == (maxPhys + PAGE_SIZE - 1) / PAGE_SIZE
    {
      this.mem, this.bitmap := mem, bitmap;
      total := (maxPhys + PAGE_SIZE - 1) / PAGE_SIZE;
      freeListHead, free := FREE_LIST_EMPTY, 0;
      stack, out := [], {};
      new;
      forall f | 0 <= f < 8 * |bitmap[..]| ensures !Marked(bitmap[..], f) {
        BitZero(f % 8);
      }
    }

    /** The bitmap test; a frame beyond the bitmap counts as allocated. */
    method IsAllocated(f: Frame) returns (b: bool)
      requires Valid()
      ensures b <==> f in out || f >= 8 * bitmap.Length
    {
      if f / 8 >= bitmap.Length {
        return true;
      }
      AndPow2(bitmap[f / 8], f % 8);
      assert Marked(bitmap[..], f) <==> f in out;
      b := And(bitmap[f / 8], Pow2(f % 8)) != 0;
    }

    /** Clears the mark and pushes the frame on the list. */
    method FreeFrame(f: Frame)
      requires Valid() && f < 8 * bitmap.Length && f !in stack
      modifies this, mem, bitmap
      ensures Valid() && stack == [f] + old(stack) && out == old(out) - {f}
      ensures mem.pages == Write(old(mem.pages), f, 0, old(freeListHead))
    {
      MarksAfterFree(bitmap[..], out, f);
      PushFrame(mem.pages, freeListHead, stack, f);
      ghost var bits := bitmap[..];
      bitmap[f / 8] := ClearMask(bitmap[f / 8], f % 8);
      assert bitmap[..] == bits[f / 8 := ClearMask(bits[f / 8], f % 8)];
      mem.Store(f, 0, freeListHead);
      freeListHead := f * PAGE_SIZE;
      free := free + 1;
      stack, out := [f] + stack, out - {f};
    }

    /** Pops the first frame of the list and marks it. */
    method Allocate() returns (r: Option<Frame>)
      requires Valid()
      modifies this, bitmap
      ensures Valid()
      ensures r.None? <==> old(stack) == []
      ensures r.None? ==> stack == old(stack) && out == old(out)
      ensures r.Some? ==> r.value == old(stack)[0] && stack == old(stack)[1..] && out == old(out) + {r.value}
    {
      if freeListHead == FREE_LIST_EMPTY {
        return None;
      }
      PopFrame(mem.pages, freeListHead, stack);
      var f := freeListHead / PAGE_SIZE;
      assert f == stack[0];
      MarksAfterAlloc(bitmap[..], out, f);
      ghost var bits := bitmap[..];
      freeListHead := mem.pages[f][0];
      bitmap[f / 8] := SetMask(bitmap[f / 8], f % 8);
      assert bitmap[..] == bits[f / 8 := SetMask(bits[f / 8], f % 8)];
      free := free - 1;
      stack, out := stack[1..], out + {f};
      r := Some(f);
    }

    /** Returns a frame; false is a failed assertion, for a frame that is not outstanding. */
    method Deallocate(f: Frame) returns (ok: bool)
      requires Valid()
      modifies this, mem, bitmap
      ensures Valid() && (ok <==> f in old(out))
      ensures ok ==> stack == [f] + old(stack) && out == old(out) - {f}
      ensures ok ==> mem.pages == Write(old(mem.pages), f, 0, old(freeListHead))
      ensures !ok ==> stack == old(stack) && out == old(out) && mem.pages == old(mem.pages)
    {
      var taken := IsAllocated(f);
      if !taken || f / 8 >= bitmap.Length {
        return false;
      }
      FreeFrame(f);
      ok := true;
    }

    /** An owner writes into a frame it holds: the list and the marks do not change. */
    method OwnerWrite(f: Frame, i: nat, v: Word)
      requires Valid() && f in out && i < WORDS_PER_PAGE
      modifies mem
      ensures Valid() && mem.pages == Write(old(mem.pages), f, i, v)
    {
      ghost var m := mem.pages;
      mem.Store(f, i, v);
      ListIgnoresOtherFrames(m, mem.pages, freeListHead, stack);
    }

    /** Frees every whole frame of a region that is not yet known to the allocator; false is the failed
        `expect` on a base that cannot be rounded up to a physical address. */
    method AddRegion(base: int, len: int) returns (ok: bool)
      requires Valid() && 0 <= base < PHYS_LIMIT && 0 <= len
      requires base + len < PHYS_LIMIT ==> base + len <= 8 * bitmap.Length * PAGE_SIZE
      requires WholeFrames(base, len) !! Donated()
      modifies this, mem, bitmap
      ensures ok <==> base <= PHYS_LIMIT - PAGE_SIZE
      ensures Valid() && out == old(out)
      ensures Donated() == old(Donated()) + (if ok && base + len < PHYS_LIMIT then WholeFrames(base, len) else {})
      ensures forall f: Frame :: f !in WholeFrames(base, len) ==> mem.pages[f] == old(mem.pages)[f]
    {
      var start := (base + PAGE_SIZE - 1) / PAGE_SIZE;
      ok := start * PAGE_SIZE < PHYS_LIMIT;
      if !ok {
        return;
      }
      if base + len >= PHYS_LIMIT {
        return;
      }
      var end := (base + len) / PAGE_SIZE;
      if start >= end {
        NoWholeFrames(base, len);
        return;
      }
      var frame := start;
      while frame < end
        invariant start <= frame <= end
        invariant Valid() && out == old(out)
        invariant Donated() == old(Donated()) + FrameSpan(start, frame)
        invariant forall f: Frame :: !(start <= f < end) ==> mem.pages[f] == old(mem.pages)[f]
      {
        WholeFrame(base, len, frame);
        assert frame !in FrameSpan(start, frame);
        assert frame !in Donated();
        ghost var s := stack;
        FreeFrame(frame);
        assert Members([frame] + s) == Members(s) + {frame};
        assert FrameSpan(start, frame + 1) == FrameSpan(start, frame) + {frame};
        frame := frame + 1;
      }
      forall f: Frame ensures f in FrameSpan(start, end) <==> f in WholeFrames(base, len) {
        WholeFrame(base, len, f);
      }
    }
  }

  ghost function FrameSpan(lo: int, hi: int): set<Frame>
  {
    set f: Frame {:trigger FreeRuns.Within(lo, f, hi)} | lo <= f < hi
  }

  /** Rounding the start up and the end down leaves the whole frames. */
  lemma WholeFrame(base: int, len: int, f: Frame)
    requires 0 <= base && 0 <= len
    ensures (base + PAGE_SIZE - 1) / PAGE_SIZE <= f < (base + len) / PAGE_SIZE <==> f in WholeFrames(base, len)
  {}

  lemma NoWholeFrames(base: int, len: int)
    requires 0 <= base && 0 <= len && (base + PAGE_SIZE - 1) / PAGE_SIZE >= (base + len) / PAGE_SIZE
    ensures WholeFrames(base, len) == {}
  {
    forall f: Frame ensures f !in WholeFrames(base, len) {
      WholeFrame(base, len, f);
    }
  }

  // ---------------------------------------------------------------------------------------
  // Runs
  // ---------------------------------------------------------------------------------------

  datatype FrameOp = Take | Give(f: Frame) | Scribble(owned: Frame, i: nat, v: Word)

  /** The abstract machine: a stack of free frames and a set of frames handed out. */
  datatype Lifo = Lifo(stack: seq<Frame>, out: set<Frame>)

  ghost function LifoStep(s: Lifo, op: FrameOp): Lifo
  {
    match op
    case Take => if s.stack == [] then s else Lifo(s.stack[1..], s.out + {s.stack[0]})
    case Give(f) => if f in s.out then Lifo([f] + s.stack, s.out - {f}) else s
    case Scribble(_, _, _) => s
  }

  ghost function LifoRun(s: Lifo, ops: seq<FrameOp>): Lifo
  {
    if ops == [] then s else LifoStep(LifoRun(s, ops[..|ops| - 1]), ops[|ops| - 1])
  }

  /** Any interleaving of allocations, releases and owner writes takes the allocator, with its
      bitmap and its in-frame list, to the state of the LIFO machine. */
  method Execute(a: BitmapAllocator, ops: seq<FrameOp>)
    requires a.Valid()
    requires forall k :: 0 <= k < |ops| && ops[k].Scribble? ==> ops[k].i < WORDS_PER_PAGE
    modifies a, a.mem, a.bitmap
    ensures a.Valid() && Lifo(a.stack, a.out) == LifoRun(Lifo(old(a.stack), old(a.out)), ops)
  {
    ghost var start := Lifo(a.stack, a.out);
    for k := 0 to |ops|
      invariant a.Valid() && Lifo(a.stack, a.out) == LifoRun(start, ops[..k])
    {
      assert ops[..k + 1][..k] == ops[..k];
      match ops[k]
      case Take =>
        var _ := a.Allocate();
      case Give(f) =>
        var _ := a.Deallocate(f);
      case Scribble(f, i, v) =>
        var held := a.IsAllocated(f);
        if held && f < 8 * a.bitmap.Length {
          a.OwnerWrite(f, i, v);
        }
    }
    assert ops[..|ops|] == ops;
  }

  ghost predicate LifoInv(s: Lifo)
  {
    Distinct(s.stack) && forall i :: 0 <= i < |s.stack| ==> s.stack[i] !in s.out
  }

  /** Over every run no frame is lost, duplicated or held twice. */
  lemma {:induction false} LifoConserves(s: Lifo, ops: seq<FrameOp>)
    requires LifoInv(s)
    ensures LifoInv(LifoRun(s, ops))
    ensures LifoRun(s, ops).out + Members(LifoRun(s, ops).stack) == s.out + Members(s.stack)
    decreases |ops|
  {
    if ops != [] {
      var p := LifoRun(s, ops[..|ops| - 1]);
      LifoConserves(s, ops[..|ops| - 1]);
      LifoStepConserves(p, ops[|ops| - 1]);
    }
  }

  lemma LifoStepConserves(s: Lifo, op: FrameOp)
    requires LifoInv(s)
    ensures LifoInv(LifoStep(s, op))
    ensures LifoStep(s, op).out + Members(LifoStep(s, op).stack) == s.out + Members(s.stack)
  {
    match op
    case Take =>
      if s.stack != [] { assert s.stack == [s.stack[0]] + s.stack[1..]; }
    case Give(f) =>
      assert Members([f] + s.stack) == Members(s.stack) + {f};
    case Scribble(_, _, _) =>
  }
}
