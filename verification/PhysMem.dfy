/** Physical memory: every frame of the 52-bit physical address space as 512 words. */
module PhysMem {
  import opened Addr

  /** Frames of 4 KiB below 2^52. */
  const FRAME_COUNT := 0x100_0000_0000
  const WORDS_PER_PAGE := 512

  type Frame = f: int | 0 <= f < FRAME_COUNT

  type Page = p: seq<Word> | |p| == WORDS_PER_PAGE witness ZeroPage()

  type Memory = seq<Page>

  function ZeroPage(): (p: seq<Word>)
    ensures |p| == WORDS_PER_PAGE && forall i :: 0 <= i < |p| ==> p[i] == 0
  {
    seq(WORDS_PER_PAGE, i => 0)
  }

  function Write(m: Memory, f: Frame, i: nat, v: Word): (m': Memory)
    requires |m| == FRAME_COUNT && i < WORDS_PER_PAGE
    ensures |m'| == FRAME_COUNT && m'[f][i] == v
    ensures forall g: Frame :: g != f ==> m'[g] == m[g]
    ensures forall j :: 0 <= j < WORDS_PER_PAGE && j != i ==> m'[f][j] == m[f][j]
  {
    m[f := m[f][i := v]]
  }

  class PhysicalMemory {
    var pages: Memory

    ghost predicate Valid()
      reads this
    {
      |pages| == FRAME_COUNT
    }

    method Store(f: Frame, i: nat, v: Word)
      requires Valid() && i < WORDS_PER_PAGE
      modifies this
      ensures Valid() && pages == Write(old(pages), f, i, v)
    {
      pages := pages[f := pages[f][i := v]];
    }

    /** Clears every word of a frame. */
    method Zero(f: Frame)
      requires Valid()
      modifies this
      ensures Valid() && pages == old(pages)[f := ZeroPage()]
    {
      for i := 0 to WORDS_PER_PAGE
        invariant Valid()
        invariant forall j :: 0 <= j < i ==> pages[f][j] == 0
        invariant forall g: Frame :: g != f ==> pages[g] == old(pages)[g]
      {
        Store(f, i, 0);
      }
      assert pages[f] == ZeroPage();
    }
  }
}
