/** Accounting over runs: a pool of donated addresses split into free runs and live blocks. */
module Pools {
  import opened FreeRuns

  /** Free and live addresses partition the pool, and the free runs are maximal. */
  ghost predicate PoolInv(pool: set<int>, free: seq<Run>, live: seq<Run>)
  {
    && Maximal(free) && Disjoint(live)
    && Cover(free) !! Cover(live)
    && Cover(free) + Cover(live) == pool
  }

  /** An allocation takes the lowest aligned fit out of the free set, and nothing else. */
  ghost predicate AllocStep(free: seq<Run>, free': seq<Run>, size: int, align: int, at: int)
  {
    && align > 0 && size > 0
    && LowestFit(Cover(free), size, align, at)
    && Maximal(free')
    && Cover(free') == Cover(free) - Span(at, at + size)
  }

  /** A release adds the block to the free set, and nothing else. */
  ghost predicate FreeStep(free: seq<Run>, free': seq<Run>, r: Run)
  {
    && Maximal(free')
    && Cover(free') == Cover(free) + r.Addresses()
  }

  function Without(rs: seq<Run>, k: nat): seq<Run>
    requires k < |rs|
  {
    rs[..k] + rs[k + 1..]
  }

  lemma WithoutIsDisjoint(rs: seq<Run>, k: nat)
    requires Disjoint(rs) && k < |rs|
    ensures Disjoint(Without(rs, k))
  {
    var w := Without(rs, k);
    assert forall i :: 0 <= i < |w| ==> w[i] == rs[if i < k then i else i + 1];
    forall i, j | 0 <= i < |w| && 0 <= j < |w| && i != j ensures Clear(w[i], w[j]) {
      assert Clear(rs[if i < k then i else i + 1], rs[if j < k then j else j + 1]);
    }
  }

  lemma WithoutCover(rs: seq<Run>, k: nat)
    requires Disjoint(rs) && k < |rs|
    ensures Cover(Without(rs, k)) == Cover(rs) - rs[k].Addresses()
  {
    var w := Without(rs, k);
    forall x ensures x in Cover(w) <==> x in Cover(rs) && x !in rs[k].Addresses() {
      if x in Cover(w) {
        var i := RunOf(w, x);
        var j := if i < k then i else i + 1;
        Holds(rs, j, x);
        assert Clear(rs[j], rs[k]);
      }
      if x in Cover(rs) && x !in rs[k].Addresses() {
        var i := RunOf(rs, x);
        Holds(w, if i < k then i else i - 1, x);
      }
    }
  }

  lemma SnocIsDisjoint(rs: seq<Run>, r: Run)
    requires Disjoint(rs) && r.size > 0 && Cover(rs) !! r.Addresses()
    ensures Disjoint(rs + [r])
  {
    var t := rs + [r];
    forall i | 0 <= i < |rs| ensures Clear(rs[i], r) {
      RunIsCovered(rs, i);
      assert rs[i].base in rs[i].Addresses() && r.base in r.Addresses();
    }
    forall i, j | 0 <= i < |t| && 0 <= j < |t| && i != j ensures Clear(t[i], t[j]) {
      if i < |rs| && j < |rs| { assert Clear(rs[i], rs[j]); }
      else if i < |rs| { assert Clear(rs[i], r); }
      else { assert Clear(rs[j], r); }
    }
  }

  lemma AllocKeepsPool(pool: set<int>, free: seq<Run>, free': seq<Run>, live: seq<Run>,
                       size: int, align: int, at: int)
    requires PoolInv(pool, free, live) && AllocStep(free, free', size, align, at)
    ensures PoolInv(pool, free', live + [Run(at, size)])
  {
    var r := Run(at, size);
    SnocIsDisjoint(live, r);
    CoverSnoc(live, r);
  }

  lemma FreeKeepsPool(pool: set<int>, free: seq<Run>, free': seq<Run>, live: seq<Run>, k: nat)
    requires PoolInv(pool, free, live) && k < |live| && FreeStep(free, free', live[k])
    ensures live[k].Addresses() !! Cover(free)
    ensures PoolInv(pool, free', Without(live, k))
  {
    WithoutIsDisjoint(live, k);
    WithoutCover(live, k);
    RunIsCovered(live, k);
  }

  /** The free counter plus the live sizes is the size of the pool, in every such state. */
  lemma BytesAreConserved(pool: set<int>, free: seq<Run>, live: seq<Run>)
    requires PoolInv(pool, free, live)
    ensures Total(free) + Total(live) == |pool|
  {
    MaximalIsDisjoint(free);
    TotalIsCardinality(free);
    TotalIsCardinality(live);
  }

  /** The free list depends only on which addresses are live: not on the order of releases. */
  lemma FreeListFollowsLiveSet(pool: set<int>, a: seq<Run>, liveA: seq<Run>, b: seq<Run>, liveB: seq<Run>)
    requires PoolInv(pool, a, liveA) && PoolInv(pool, b, liveB)
    requires multiset(liveA) == multiset(liveB)
    ensures a == b
  {
    CoverOfSameBlocks(liveA, liveB);
    assert Cover(a) == pool - Cover(liveA) == Cover(b);
    FreeListIsCanonical(a, b);
  }

  lemma CoverOfSameBlocks(a: seq<Run>, b: seq<Run>)
    requires multiset(a) == multiset(b)
    ensures Cover(a) == Cover(b)
  {
    CoverWithin(a, b);
    CoverWithin(b, a);
  }

  lemma CoverWithin(a: seq<Run>, b: seq<Run>)
    requires multiset(a) == multiset(b)
    ensures Cover(a) <= Cover(b)
  {
    forall x | x in Cover(a) ensures x in Cover(b) {
      var i := RunOf(a, x);
      assert a[i] in multiset(a);
      assert a[i] in b;
      var j :| 0 <= j < |b| && b[j] == a[i];
      Holds(b, j, x);
    }
  }

  /** Taking a block and giving it back restores the free list exactly. */
  lemma AllocThenFreeRestores(free: seq<Run>, mid: seq<Run>, after: seq<Run>, size: int, align: int, at: int)
    requires Maximal(free) && AllocStep(free, mid, size, align, at)
    requires FreeStep(mid, after, Run(at, size))
    ensures after == free
  {
    assert Cover(after) == Cover(free);
    FreeListIsCanonical(after, free);
  }

  // ---------------------------------------------------------------------------------------
  // Fragmentation is bounded by the live blocks
  // ---------------------------------------------------------------------------------------

  /** The live blocks that start below `x`. */
  ghost function StartingBelow(live: seq<Run>, x: int): set<int>
  {
    set i | 0 <= i < |live| && live[i].base < x
  }

  /** Each gap between two free runs of a contiguous pool holds a live block of its own. */
  lemma GapOwner(lo: int, hi: int, free: seq<Run>, live: seq<Run>, k: nat) returns (i: nat)
    requires PoolInv(Span(lo, hi), free, live) && k + 1 < |free|
    ensures i < |live| && free[k].base < live[i].base < free[k + 1].base
  {
    var gap := free[k].End();
    RunEndIsNotCovered(free, k);
    assert free[k].base in free[k].Addresses() && free[k + 1].base in free[k + 1].Addresses();
    RunIsCovered(free, k);
    RunIsCovered(free, k + 1);
    assert gap in Span(lo, hi);
    i := RunOf(live, gap);
    RunIsCovered(live, i);
  }

  lemma {:induction false} GapsNeedLiveBlocks(lo: int, hi: int, free: seq<Run>, live: seq<Run>, k: nat)
    requires PoolInv(Span(lo, hi), free, live) && k < |free|
    ensures k <= |StartingBelow(live, free[k].base)|
    decreases k
  {
    if k > 0 {
      GapsNeedLiveBlocks(lo, hi, free, live, k - 1);
      var i := GapOwner(lo, hi, free, live, k - 1);
      var below := StartingBelow(live, free[k - 1].base);
      assert below + {i} <= StartingBelow(live, free[k].base);
      SubsetSize(below + {i}, StartingBelow(live, free[k].base));
    }
  }

  lemma SubsetSize(a: set<int>, b: set<int>)
    requires a <= b
    ensures |a| <= |b|
  {
    assert b == a + (b - a);
  }

  /** In a pool seeded with one range there is at most one free run more than live blocks. */
  lemma FreeRunsAtMostLivePlusOne(lo: int, hi: int, free: seq<Run>, live: seq<Run>)
    requires PoolInv(Span(lo, hi), free, live)
    ensures |free| <= |live| + 1
  {
    if |free| > 0 {
      var k := |free| - 1;
      GapsNeedLiveBlocks(lo, hi, free, live, k);
      SubsetSize(StartingBelow(live, free[k].base), Span(0, |live|));
      SpanSize(0, |live|);
    }
  }

  // ---------------------------------------------------------------------------------------
  // Runs
  // ---------------------------------------------------------------------------------------

  datatype PoolState = PoolState(free: seq<Run>, live: seq<Run>)

  datatype PoolEvent = Take(size: int, align: int, at: int) | Give(k: nat)

  ghost predicate PoolStep(s: PoolState, e: PoolEvent, s': PoolState)
  {
    match e
    case Take(size, align, at) =>
      AllocStep(s.free, s'.free, size, align, at) && s'.live == s.live + [Run(at, size)]
    case Give(k) =>
      k < |s.live| && FreeStep(s.free, s'.free, s.live[k]) && s'.live == Without(s.live, k)
  }

  ghost predicate PoolRun(trace: seq<PoolState>, events: seq<PoolEvent>)
  {
    && |trace| == |events| + 1
    && forall i :: 0 <= i < |events| ==> PoolStep(trace[i], events[i], trace[i + 1])
  }

  lemma StepKeepsPool(pool: set<int>, s: PoolState, e: PoolEvent, s': PoolState)
    requires PoolInv(pool, s.free, s.live) && PoolStep(s, e, s')
    ensures PoolInv(pool, s'.free, s'.live)
  {
    match e
    case Take(size, align, at) => AllocKeepsPool(pool, s.free, s'.free, s.live, size, align, at);
    case Give(k) => FreeKeepsPool(pool, s.free, s'.free, s.live, k);
  }

  /** Every state of every run splits the pool into maximal free runs and disjoint live blocks. */
  lemma {:induction false} EveryRunKeepsPool(pool: set<int>, trace: seq<PoolState>, events: seq<PoolEvent>, n: nat)
    requires PoolRun(trace, events) && n < |trace|
    requires PoolInv(pool, trace[0].free, trace[0].live)
    ensures PoolInv(pool, trace[n].free, trace[n].live)
    decreases n
  {
    if n > 0 {
      EveryRunKeepsPool(pool, trace, events, n - 1);
      assert PoolStep(trace[n - 1], events[n - 1], trace[n - 1 + 1]);
      StepKeepsPool(pool, trace[n - 1], events[n - 1], trace[n]);
    }
  }

  /** Free plus live bytes never change over a run. */
  lemma RunConservesBytes(pool: set<int>, trace: seq<PoolState>, events: seq<PoolEvent>, n: nat)
    requires PoolRun(trace, events) && n < |trace|
    requires PoolInv(pool, trace[0].free, trace[0].live)
    ensures Total(trace[n].free) + Total(trace[n].live) == Total(trace[0].free) + Total(trace[0].live)
  {
    EveryRunKeepsPool(pool, trace, events, n);
    BytesAreConserved(pool, trace[n].free, trace[n].live);
    BytesAreConserved(pool, trace[0].free, trace[0].live);
  }

  /** Two runs over the same pool that end with the same live blocks end with the same free list,
      whatever was allocated in between and in whatever order it was returned. */
  lemma RunsAgreeOnFreeList(pool: set<int>, a: seq<PoolState>, ea: seq<PoolEvent>, b: seq<PoolState>, eb: seq<PoolEvent>)
    requires PoolRun(a, ea) && PoolRun(b, eb)
    requires PoolInv(pool, a[0].free, a[0].live) && PoolInv(pool, b[0].free, b[0].live)
    requires multiset(a[|ea|].live) == multiset(b[|eb|].live)
    ensures a[|ea|].free == b[|eb|].free
  {
    EveryRunKeepsPool(pool, a, ea, |ea|);
    EveryRunKeepsPool(pool, b, eb, |eb|);
    FreeListFollowsLiveSet(pool, a[|ea|].free, a[|ea|].live, b[|eb|].free, b[|eb|].live);
  }

  /** The allocator is deterministic: the same requests from the same state give the same
      addresses and the same free lists. */
  lemma StepIsDeterministic(s: PoolState, e: PoolEvent, a: PoolState, f: PoolEvent, b: PoolState)
    requires PoolStep(s, e, a) && PoolStep(s, f, b)
    requires e.Take? && f.Take? && e.size == f.size && e.align == f.align
    ensures e == f && a == b
  {
    FreeListIsCanonical(a.free, b.free);
  }
}
