/** The specification shared by the kernel heap and the virtual-region allocator: a set of
    free addresses, kept as the list of its maximal runs and served at the lowest aligned fit. */
module FreeRuns {
  import Bits

  /** The half-open address range `[base, base + size)`. */
  datatype Run = Run(base: int, size: int) {
    function End(): int { base + size }

    predicate Has(x: int) { base <= x < base + size }

    ghost function Addresses(): set<int> { Span(base, End()) }
  }

  predicate Within(lo: int, x: int, hi: int) { lo <= x < hi }

  ghost function Span(lo: int, hi: int): set<int>
  {
    set x: int {:trigger Within(lo, x, hi)} | lo <= x < hi
  }

  /** The addresses covered by a list of runs. */
  ghost function Cover(rs: seq<Run>): set<int>
  {
    CoverUpTo(rs, |rs|)
  }

  ghost function CoverUpTo(rs: seq<Run>, n: nat): set<int>
    requires n <= |rs|
  {
    if n == 0 then {} else CoverUpTo(rs, n - 1) + rs[n - 1].Addresses()
  }

  /** Address-sorted, non-empty, disjoint and with a gap between any two: the runs are maximal. */
  ghost predicate Maximal(rs: seq<Run>)
  {
    && (forall i :: 0 <= i < |rs| ==> rs[i].size > 0)
    && (forall i, j :: 0 <= i < j < |rs| ==> rs[i].End() < rs[j].base)
  }

  /** The sum of the sizes. */
  function Total(rs: seq<Run>): int
  {
    if rs == [] then 0 else Total(rs[..|rs| - 1]) + rs[|rs| - 1].size
  }

  predicate Clear(a: Run, b: Run) { a.End() <= b.base || b.End() <= a.base }

  /** Pairwise disjoint, in any order. */
  ghost predicate Disjoint(rs: seq<Run>)
  {
    && (forall i :: 0 <= i < |rs| ==> rs[i].size > 0)
    && (forall i, j {:trigger Clear(rs[i], rs[j])} :: 0 <= i < |rs| && 0 <= j < |rs| && i != j
          ==> Clear(rs[i], rs[j]))
  }

  // ---------------------------------------------------------------------------------------
  // The free list is a function of the free set
  // ---------------------------------------------------------------------------------------

  /** An address is covered exactly when some run holds it. */
  lemma {:induction false} CoverUpToHolds(rs: seq<Run>, n: nat, x: int)
    requires n <= |rs|
    ensures x in CoverUpTo(rs, n) <==> exists i :: 0 <= i < n && rs[i].Has(x)
    decreases n
  {
    if n > 0 {
      CoverUpToHolds(rs, n - 1, x);
      assert x in rs[n - 1].Addresses() <==> rs[n - 1].Has(x);
    }
  }

  /** The run that holds a covered address. */
  lemma RunOf(rs: seq<Run>, x: int) returns (i: nat)
    requires x in Cover(rs)
    ensures i < |rs| && rs[i].Has(x)
  {
    CoverUpToHolds(rs, |rs|, x);
    i :| 0 <= i < |rs| && rs[i].Has(x);
  }

  lemma Holds(rs: seq<Run>, i: nat, x: int)
    requires i < |rs| && rs[i].Has(x)
    ensures x in Cover(rs)
  {
    CoverUpToHolds(rs, |rs|, x);
  }

  lemma RunEndIsNotCovered(rs: seq<Run>, k: nat)
    requires Maximal(rs) && k < |rs|
    ensures rs[k].End() !in Cover(rs)
  {
    if rs[k].End() in Cover(rs) {
      var i := RunOf(rs, rs[k].End());
    }
  }

  lemma RunIsCovered(rs: seq<Run>, k: nat)
    requires k < |rs|
    ensures rs[k].Addresses() <= Cover(rs)
  {
    forall x | x in rs[k].Addresses() ensures x in Cover(rs) {
      Holds(rs, k, x);
    }
  }

  lemma CoverTail(rs: seq<Run>)
    requires Maximal(rs) && rs != []
    ensures Maximal(rs[1..]) && Cover(rs[1..]) == Cover(rs) - rs[0].Addresses()
  {
    var t := rs[1..];
    forall x ensures x in Cover(t) <==> x in Cover(rs) && x !in rs[0].Addresses() {
      if x in Cover(t) {
        var i := RunOf(t, x);
        Holds(rs, i + 1, x);
      }
      if x in Cover(rs) && x !in rs[0].Addresses() {
        var i := RunOf(rs, x);
        Holds(t, i - 1, x);
      }
    }
  }

  lemma CoverHead(rs: seq<Run>)
    requires Maximal(rs) && rs != []
    ensures rs[0].base in Cover(rs) && forall x :: x in Cover(rs) ==> rs[0].base <= x
  {
    Holds(rs, 0, rs[0].base);
    forall x | x in Cover(rs) ensures rs[0].base <= x {
      var i := RunOf(rs, x);
    }
  }

  /** Two maximal lists with the same addresses have the same first run. */
  lemma SameFirstRun(a: seq<Run>, b: seq<Run>)
    requires Maximal(a) && Maximal(b) && a != [] && b != [] && Cover(a) == Cover(b)
    ensures a[0] == b[0]
  {
    CoverHead(a);
    CoverHead(b);
    RunEndIsNotCovered(a, 0);
    RunEndIsNotCovered(b, 0);
    RunIsCovered(a, 0);
    RunIsCovered(b, 0);
  }

  /** The list of maximal runs is determined by the set of free addresses alone. */
  lemma {:induction false} FreeListIsCanonical(a: seq<Run>, b: seq<Run>)
    requires Maximal(a) && Maximal(b) && Cover(a) == Cover(b)
    ensures a == b
    decreases |a|
  {
    if a == [] {
      if b != [] { CoverHead(b); }
    } else {
      CoverHead(a);
      assert b != [];
      SameFirstRun(a, b);
      CoverTail(a);
      CoverTail(b);
      FreeListIsCanonical(a[1..], b[1..]);
      assert a == [a[0]] + a[1..] && b == [b[0]] + b[1..];
    }
  }

  // ---------------------------------------------------------------------------------------
  // Sizes are cardinalities
  // ---------------------------------------------------------------------------------------

  lemma {:induction false} SpanSize(lo: int, hi: int)
    requires lo <= hi
    ensures |Span(lo, hi)| == hi - lo
    decreases hi - lo
  {
    if lo < hi {
      SpanSize(lo, hi - 1);
      assert Span(lo, hi) == Span(lo, hi - 1) + {hi - 1};
    }
  }

  lemma CoverSnoc(rs: seq<Run>, r: Run)
    ensures Cover(rs + [r]) == Cover(rs) + r.Addresses()
  {
    var t := rs + [r];
    forall x ensures x in Cover(t) <==> x in Cover(rs) || x in r.Addresses() {
      if x in Cover(t) {
        var i := RunOf(t, x);
        if i < |rs| { Holds(rs, i, x); }
      }
      if x in Cover(rs) {
        var i := RunOf(rs, x);
        Holds(t, i, x);
      }
      if x in r.Addresses() {
        Holds(t, |rs|, x);
      }
    }
  }

  lemma MaximalIsDisjoint(rs: seq<Run>)
    requires Maximal(rs)
    ensures Disjoint(rs)
  {
    forall i, j | 0 <= i < |rs| && 0 <= j < |rs| && i != j
      ensures Clear(rs[i], rs[j])
    {
      if i < j { assert rs[i].End() < rs[j].base; } else { assert rs[j].End() < rs[i].base; }
    }
  }

  lemma LastIsApart(front: seq<Run>, last: Run)
    requires Disjoint(front + [last])
    ensures Disjoint(front) && last.size > 0 && Cover(front) !! last.Addresses()
  {
    var rs := front + [last];
    assert forall i :: 0 <= i < |front| ==> front[i] == rs[i];
    assert last == rs[|front|];
    forall i, j | 0 <= i < |front| && 0 <= j < |front| && i != j ensures Clear(front[i], front[j]) {
      assert Clear(rs[i], rs[j]);
    }
    forall x | x in Cover(front) ensures x !in last.Addresses() {
      var i := RunOf(front, x);
      assert Clear(rs[i], rs[|front|]);
    }
  }

  /** The byte counter is the number of covered addresses. */
  lemma {:induction false} TotalIsCardinality(rs: seq<Run>)
    requires Disjoint(rs)
    ensures Total(rs) == |Cover(rs)|
    decreases |rs|
  {
    if rs == [] {
      assert Cover(rs) == {};
    } else {
      var n := |rs| - 1;
      var front, last := rs[..n], rs[n];
      assert rs == front + [last];
      CoverSnoc(front, last);
      LastIsApart(front, last);
      TotalIsCardinality(front);
      SpanSize(last.base, last.End());
      assert |Cover(front) + last.Addresses()| == |Cover(front)| + |last.Addresses()|;
    }
  }

  // ---------------------------------------------------------------------------------------
  // Lowest aligned fit
  // ---------------------------------------------------------------------------------------

  ghost predicate Fits(free: set<int>, size: int, align: int, at: int)
    requires align > 0
  {
    at % align == 0 && Span(at, at + size) <= free
  }

  ghost predicate LowestFit(free: set<int>, size: int, align: int, at: int)
    requires align > 0
  {
    && Fits(free, size, align, at)
    && forall other :: Fits(free, size, align, other) ==> at <= other
  }

  /** The smallest multiple of `align` that is at least `x`. */
  function AlignUp(x: int, align: int): (r: int)
    requires align > 0
    ensures r % align == 0 && x <= r < x + align
  {
    AlignUpIsMultiple(x, align);
    if x % align == 0 then x else x + (align - x % align)
  }

  lemma AlignUpIsMultiple(x: int, align: int)
    requires align > 0
    ensures (x + (align - x % align)) % align == 0
  {
    assert x + (align - x % align) == (x / align + 1) * align;
    MultipleOf(x / align + 1, align);
  }

  lemma AlignUpIsLeast(x: int, align: int, m: int)
    requires align > 0 && m % align == 0 && x <= m
    ensures AlignUp(x, align) <= m
  {
    var r := AlignUp(x, align);
    if m < r {
      GapOfMultiples(m, r, align);
    }
  }

  lemma GapOfMultiples(a: int, b: int, d: int)
    requires d > 0 && a % d == 0 && b % d == 0 && a < b
    ensures a + d <= b
  {
    var p, q := a / d, b / d;
    RoundDown(a, d);
    RoundDown(b, d);
    assert (q - p) * d == b - a;
    assert q > p by {
      if q <= p { NonNegativeProduct(p - q, d); }
    }
    Bits.MulAtLeast(q - p, d);
  }

  lemma RoundDown(y: int, d: int)
    requires d > 0
    ensures y - y % d == y / d * d
  {}

  lemma NonNegativeProduct(a: int, d: int)
    requires a >= 0 && d > 0
    ensures a * d >= 0
  {}

  lemma MultipleOf(q: int, d: int)
    requires d > 0
    ensures q * d % d == 0
  {
    var k, s := q * d / d, q * d % d;
    assert (q - k) * d == s;
    if q > k { Bits.MulAtLeast(q - k, d); } else if q < k { Bits.MulAtLeast(k - q, d); }
  }

  lemma MultipleOfMultiple(x: int, align: int, d: int)
    requires d > 0 && align > 0 && align % d == 0 && x % align == 0
    ensures x % d == 0
  {
    RoundDown(x, align);
    RoundDown(align, d);
    var q := x / align * (align / d);
    assert x == q * d;
    MultipleOf(q, d);
  }

  /** A contiguous free range lies inside one maximal run. */
  lemma SpanInOneRun(rs: seq<Run>, lo: int, hi: int) returns (k: nat)
    requires Maximal(rs) && lo < hi && Span(lo, hi) <= Cover(rs)
    ensures k < |rs| && rs[k].base <= lo && hi <= rs[k].End()
  {
    assert lo in Span(lo, hi);
    var i := RunOf(rs, lo);
    k := i;
    RunEndIsNotCovered(rs, k);
  }

  /** Whether the run can serve the request after alignment padding. */
  predicate RunServes(r: Run, size: int, align: int)
    requires align > 0
  {
    AlignUp(r.base, align) + size <= r.End()
  }

  /** First fit over the sorted runs finds the lowest fit of the whole free set. */
  lemma FirstFitIsLowest(rs: seq<Run>, k: nat, size: int, align: int)
    requires Maximal(rs) && size > 0 && align > 0 && k < |rs|
    requires forall i :: 0 <= i < k ==> !RunServes(rs[i], size, align)
    requires RunServes(rs[k], size, align)
    ensures LowestFit(Cover(rs), size, align, AlignUp(rs[k].base, align))
  {
    var at := AlignUp(rs[k].base, align);
    RunIsCovered(rs, k);
    assert Span(at, at + size) <= rs[k].Addresses();
    forall other | Fits(Cover(rs), size, align, other) ensures at <= other {
      var j := SpanInOneRun(rs, other, other + size);
      AlignUpIsLeast(rs[j].base, align, other);
      assert RunServes(rs[j], size, align);
      assert k <= j;
      if k < j { assert rs[k].End() < rs[j].base; }
    }
  }

  /** When no run serves, nothing in the free set fits. */
  lemma NoRunServesNoFit(rs: seq<Run>, size: int, align: int)
    requires Maximal(rs) && size > 0 && align > 0
    requires forall i :: 0 <= i < |rs| ==> !RunServes(rs[i], size, align)
    ensures forall at :: !Fits(Cover(rs), size, align, at)
  {
    forall at ensures !Fits(Cover(rs), size, align, at) {
      if Fits(Cover(rs), size, align, at) {
        var j := SpanInOneRun(rs, at, at + size);
        AlignUpIsLeast(rs[j].base, align, at);
      }
    }
  }

  // ---------------------------------------------------------------------------------------
  // Taking a range out and putting one back
  // ---------------------------------------------------------------------------------------

  /** What is left between two addresses: nothing, or one run. */
  function Fragment(lo: int, hi: int): seq<Run>
  {
    if lo < hi then [Run(lo, hi - lo)] else []
  }

  /** The list after `[at, at + size)` is taken out of run `k`. */
  function Carve(rs: seq<Run>, k: nat, at: int, size: int): seq<Run>
    requires k < |rs|
  {
    rs[..k] + Fragment(rs[k].base, at) + Fragment(at + size, rs[k].End()) + rs[k + 1..]
  }

  lemma CoverConcat(a: seq<Run>, b: seq<Run>)
    ensures Cover(a + b) == Cover(a) + Cover(b)
  {
    var t := a + b;
    forall x ensures x in Cover(t) <==> x in Cover(a) || x in Cover(b) {
      if x in Cover(t) {
        var i := RunOf(t, x);
        if i < |a| { Holds(a, i, x); }
        else { Holds(b, i - |a|, x); }
      }
      if x in Cover(a) {
        var i := RunOf(a, x);
        Holds(t, i, x);
      }
      if x in Cover(b) {
        var i := RunOf(b, x);
        Holds(t, |a| + i, x);
      }
    }
  }

  lemma CoverFragment(lo: int, hi: int)
    ensures Cover(Fragment(lo, hi)) == Span(lo, hi)
  {
    var f := Fragment(lo, hi);
    forall x ensures x in Cover(f) <==> x in Span(lo, hi) {
      if lo <= x < hi { Holds(f, 0, x); }
      if x in Cover(f) { var i := RunOf(f, x); }
    }
  }

  /** Every run of the first list ends strictly before every run of the second. */
  ghost predicate Before(a: seq<Run>, b: seq<Run>)
  {
    forall i, j :: 0 <= i < |a| && 0 <= j < |b| ==> a[i].End() < b[j].base
  }

  lemma MaximalConcat(a: seq<Run>, b: seq<Run>)
    requires Maximal(a) && Maximal(b) && Before(a, b)
    ensures Maximal(a + b)
  {
    var t := a + b;
    forall i, j | 0 <= i < j < |t| ensures t[i].End() < t[j].base {
      if i < |a| <= j { assert a[i].End() < b[j - |a|].base; }
    }
  }

  lemma SplitSpan(lo: int, at: int, size: int, hi: int)
    requires lo <= at && size > 0 && at + size <= hi
    ensures Span(lo, at) + Span(at + size, hi) == Span(lo, hi) - Span(at, at + size)
  {}

  /** Taking a range out keeps the runs maximal and removes exactly that range. */
  lemma CarveIsRemoval(rs: seq<Run>, k: nat, at: int, size: int)
    requires Maximal(rs) && k < |rs| && size > 0
    requires rs[k].base <= at && at + size <= rs[k].End()
    ensures Maximal(Carve(rs, k, at, size))
    ensures Cover(Carve(rs, k, at, size)) == Cover(rs) - Span(at, at + size)
  {
    CarveIsMaximal(rs, k, at, size);
    var r := rs[k];
    var head, tail := Fragment(r.base, at), Fragment(at + size, r.End());
    var left, right := rs[..k], rs[k + 1..];
    CoverConcat(left, head);
    CoverConcat(left + head, tail);
    CoverConcat(left + head + tail, right);
    CoverFragment(r.base, at);
    CoverFragment(at + size, r.End());
    CoverAround(rs, k);
    SplitSpan(r.base, at, size, r.End());
    assert Span(at, at + size) <= r.Addresses();
  }

  lemma CarveIsMaximal(rs: seq<Run>, k: nat, at: int, size: int)
    requires Maximal(rs) && k < |rs| && size > 0
    requires rs[k].base <= at && at + size <= rs[k].End()
    ensures Maximal(Carve(rs, k, at, size))
  {
    var r := rs[k];
    var head, tail := Fragment(r.base, at), Fragment(at + size, r.End());
    var mid := head + tail;
    MaximalConcat(head, tail);
    var left, right := rs[..k], rs[k + 1..];
    MaximalSlice(rs, 0, k);
    MaximalSlice(rs, k + 1, |rs|);
    assert rs[0..k] == left && rs[k + 1..|rs|] == right;
    FragmentsBetween(rs, k, mid);
    assert left + mid + right == Carve(rs, k, at, size);
  }

  /** Runs inside run `k` can stand in its place. */
  lemma FragmentsBetween(rs: seq<Run>, k: nat, mid: seq<Run>)
    requires Maximal(rs) && k < |rs| && Maximal(mid) && Maximal(rs[..k]) && Maximal(rs[k + 1..])
    requires forall i :: 0 <= i < |mid| ==> rs[k].base <= mid[i].base && mid[i].End() <= rs[k].End()
    ensures Maximal(rs[..k] + mid + rs[k + 1..])
  {
    var left, right := rs[..k], rs[k + 1..];
    MaximalConcat(left, mid);
    forall i, j | 0 <= i < |left + mid| && 0 <= j < |right| ensures (left + mid)[i].End() < right[j].base {
      assert rs[k].End() < rs[k + 1 + j].base;
      if i < k { assert rs[i].End() < rs[k + 1 + j].base; }
    }
    MaximalConcat(left + mid, right);
  }

  /** What a carved list is made of. */
  lemma CarveElements(rs: seq<Run>, k: nat, at: int, size: int, i: nat)
    requires k < |rs| && i < |Carve(rs, k, at, size)|
    ensures var x := Carve(rs, k, at, size)[i];
            || x in rs
            || (rs[k].base < at && x == Run(rs[k].base, at - rs[k].base))
            || (at + size < rs[k].End() && x == Run(at + size, rs[k].End() - (at + size)))
  {
    var head, tail := Fragment(rs[k].base, at), Fragment(at + size, rs[k].End());
    var x := Carve(rs, k, at, size)[i];
    if i < k { assert x == rs[i]; }
    else if i < k + |head| { assert x == head[i - k]; }
    else if i < k + |head| + |tail| { assert x == tail[i - k - |head|]; }
    else { assert x == rs[i - |head| - |tail| + 1]; }
  }

  /** What a coalesced list is made of. */
  lemma CoalesceElements(rs: seq<Run>, pos: nat, r: Run, i: nat)
    requires pos <= |rs| && i < |Coalesce(rs, pos, r)|
    ensures var x := Coalesce(rs, pos, r)[i]; x in rs || x == Merged(rs, pos, r)
  {
    var l, h := LeftCut(rs, pos, r), RightCut(rs, pos, r);
    var x := Coalesce(rs, pos, r)[i];
    if i < l { assert x == rs[i]; }
    else if i > l { assert x == rs[i - l - 1 + h]; }
  }

  /** A maximal list is its left part, one run and its right part, all apart. */
  lemma CoverAround(rs: seq<Run>, k: nat)
    requires Maximal(rs) && k < |rs|
    ensures Cover(rs) == Cover(rs[..k]) + rs[k].Addresses() + Cover(rs[k + 1..])
    ensures Cover(rs[..k]) !! rs[k].Addresses() && Cover(rs[k + 1..]) !! rs[k].Addresses()
  {
    assert rs == rs[..k] + [rs[k]] + rs[k + 1..];
    CoverSnoc(rs[..k], rs[k]);
    CoverConcat(rs[..k] + [rs[k]], rs[k + 1..]);
    ApartFrom(rs[..k], rs[k]);
    ApartFrom(rs[k + 1..], rs[k]);
  }

  lemma ApartFrom(rs: seq<Run>, r: Run)
    requires forall i :: 0 <= i < |rs| ==> Clear(rs[i], r)
    ensures Cover(rs) !! r.Addresses()
  {
    forall x | x in Cover(rs) ensures x !in r.Addresses() {
      var i := RunOf(rs, x);
      assert Clear(rs[i], r);
    }
  }

  /** The position at which a run with this base goes: the runs before it start lower. */
  ghost predicate InsertionPoint(rs: seq<Run>, base: int, pos: nat)
  {
    && pos <= |rs|
    && (forall i :: 0 <= i < pos ==> rs[i].base < base)
    && (forall i :: pos <= i < |rs| ==> base <= rs[i].base)
  }

  predicate JoinsLeft(rs: seq<Run>, pos: nat, r: Run)
    requires pos <= |rs|
  {
    pos > 0 && rs[pos - 1].End() == r.base
  }

  predicate JoinsRight(rs: seq<Run>, pos: nat, r: Run)
    requires pos <= |rs|
  {
    pos < |rs| && r.End() == rs[pos].base
  }

  /** How many runs on the left, and from which run on the right, are kept as they are. */
  function LeftCut(rs: seq<Run>, pos: nat, r: Run): (l: nat)
    requires pos <= |rs|
    ensures l <= pos
  {
    if JoinsLeft(rs, pos, r) then pos - 1 else pos
  }

  function RightCut(rs: seq<Run>, pos: nat, r: Run): (h: nat)
    requires pos <= |rs|
    ensures pos <= h <= |rs|
  {
    if JoinsRight(rs, pos, r) then pos + 1 else pos
  }

  /** `r` together with the neighbours it touches. */
  function Merged(rs: seq<Run>, pos: nat, r: Run): Run
    requires pos <= |rs|
  {
    var lo := if JoinsLeft(rs, pos, r) then rs[pos - 1].base else r.base;
    var hi := if JoinsRight(rs, pos, r) then rs[pos].End() else r.End();
    Run(lo, hi - lo)
  }

  /** The list after `r` is inserted at `pos` and merged with the neighbours it touches. */
  function Coalesce(rs: seq<Run>, pos: nat, r: Run): seq<Run>
    requires pos <= |rs|
  {
    rs[..LeftCut(rs, pos, r)] + [Merged(rs, pos, r)] + rs[RightCut(rs, pos, r)..]
  }

  /** A range outside the free set lies in one gap of the list. */
  lemma InsertedRunSitsInGap(rs: seq<Run>, pos: nat, r: Run)
    requires Maximal(rs) && r.size > 0 && r.Addresses() !! Cover(rs)
    requires InsertionPoint(rs, r.base, pos)
    ensures forall i :: 0 <= i < pos ==> rs[i].End() <= r.base
    ensures forall i :: pos <= i < |rs| ==> r.End() <= rs[i].base
  {
    forall i | 0 <= i < pos ensures rs[i].End() <= r.base {
      RunIsCovered(rs, i);
      assert r.base in r.Addresses();
    }
    forall i | pos <= i < |rs| ensures r.End() <= rs[i].base {
      RunIsCovered(rs, i);
      assert rs[i].base in rs[i].Addresses();
    }
  }

  lemma MaximalSlice(rs: seq<Run>, a: nat, b: nat)
    requires Maximal(rs) && a <= b <= |rs|
    ensures Maximal(rs[a..b])
  {}

  lemma MaximalAround(a: seq<Run>, m: Run, b: seq<Run>)
    requires Maximal(a) && Maximal(b) && m.size > 0
    requires forall i :: 0 <= i < |a| ==> a[i].End() < m.base
    requires forall i :: 0 <= i < |b| ==> m.End() < b[i].base
    ensures Maximal(a + [m] + b)
  {
    MaximalConcat(a, [m]);
    forall i, j | 0 <= i < |a| + 1 && 0 <= j < |b| ensures (a + [m])[i].End() < b[j].base {
      assert m.End() < b[j].base;
    }
    MaximalConcat(a + [m], b);
  }

  lemma CoverSplit(a: seq<Run>, b: seq<Run>, c: seq<Run>)
    ensures Cover(a + b + c) == Cover(a) + Cover(b) + Cover(c)
  {
    CoverConcat(a + b, c);
    CoverConcat(a, b);
  }

  lemma CoverOne(r: Run)
    ensures Cover([r]) == r.Addresses()
  {
    CoverSnoc([], r);
    assert [] + [r] == [r];
    assert Cover([]) == {};
  }

  /** Putting a range back keeps the runs maximal and adds exactly that range. */
  lemma CoalesceIsUnion(rs: seq<Run>, pos: nat, r: Run)
    requires Maximal(rs) && r.size > 0 && r.Addresses() !! Cover(rs)
    requires InsertionPoint(rs, r.base, pos)
    ensures Maximal(Coalesce(rs, pos, r))
    ensures Cover(Coalesce(rs, pos, r)) == Cover(rs) + r.Addresses()
    ensures |Coalesce(rs, pos, r)| <= |rs| + 1
  {
    hide Cover, Maximal, Merged;
    InsertedRunSitsInGap(rs, pos, r);
    CoalesceIsMaximal(rs, pos, r);
    var l, h, m := LeftCut(rs, pos, r), RightCut(rs, pos, r), Merged(rs, pos, r);
    CoverSplit(rs[..l], [m], rs[h..]);
    CoverOne(m);
    MergedAddresses(rs, pos, r);
    assert rs == rs[..l] + rs[l..h] + rs[h..];
    CoverSplit(rs[..l], rs[l..h], rs[h..]);
  }

  lemma CoalesceIsMaximal(rs: seq<Run>, pos: nat, r: Run)
    requires Maximal(rs) && r.size > 0 && pos <= |rs|
    requires forall i :: 0 <= i < pos ==> rs[i].End() <= r.base
    requires forall i :: pos <= i < |rs| ==> r.End() <= rs[i].base
    ensures Maximal(Coalesce(rs, pos, r))
  {
    var l, h, m := LeftCut(rs, pos, r), RightCut(rs, pos, r), Merged(rs, pos, r);
    GapEdges(rs, pos, r);
    var left, right := rs[..l], rs[h..];
    MaximalSlice(rs, 0, l);
    MaximalSlice(rs, h, |rs|);
    assert rs[0..l] == left && rs[h..|rs|] == right;
    MaximalAround(left, m, right);
  }

  /** With the touching neighbours taken away, the rest stays clear of the merged run. */
  lemma GapEdges(rs: seq<Run>, pos: nat, r: Run)
    requires Maximal(rs) && r.size > 0 && pos <= |rs|
    requires forall i :: 0 <= i < pos ==> rs[i].End() <= r.base
    requires forall i :: pos <= i < |rs| ==> r.End() <= rs[i].base
    ensures Merged(rs, pos, r).size > 0
    ensures forall i :: 0 <= i < LeftCut(rs, pos, r) ==> rs[i].End() < Merged(rs, pos, r).base
    ensures forall j :: RightCut(rs, pos, r) <= j < |rs| ==> Merged(rs, pos, r).End() < rs[j].base
  {
    var l, h, m := LeftCut(rs, pos, r), RightCut(rs, pos, r), Merged(rs, pos, r);
    forall i | 0 <= i < l ensures rs[i].End() < m.base {
      if i < pos - 1 { assert rs[i].End() < rs[pos - 1].base; }
    }
    forall j | h <= j < |rs| ensures m.End() < rs[j].base {
      if j > pos { assert rs[pos].End() < rs[j].base; }
    }
  }

  lemma MergedAddresses(rs: seq<Run>, pos: nat, r: Run)
    requires Maximal(rs) && r.size > 0 && pos <= |rs|
    ensures var l, h := LeftCut(rs, pos, r), RightCut(rs, pos, r);
            Merged(rs, pos, r).Addresses() == Cover(rs[l..h]) + r.Addresses()
  {
    var l, h, m := LeftCut(rs, pos, r), RightCut(rs, pos, r), Merged(rs, pos, r);
    var mid := rs[l..h];
    forall x ensures x in m.Addresses() <==> x in Cover(mid) || x in r.Addresses() {
      if x in m.Addresses() && x !in r.Addresses() {
        if x < r.base { Holds(mid, 0, x); }
        else { Holds(mid, pos - l, x); }
      }
      if x in Cover(mid) {
        var i := RunOf(mid, x);
        assert mid[i] == rs[l + i];
      }
    }
  }

  // ---------------------------------------------------------------------------------------
  // Counting runs
  // ---------------------------------------------------------------------------------------

  /** The addresses at which the runs of a set begin. */
  ghost function Starts(free: set<int>): set<int> { set x | x in free && BeginsAt(free, x) }

  ghost predicate BeginsAt(free: set<int>, x: int) { x - 1 !in free }

  ghost function Bases(rs: seq<Run>): set<int> { set i | 0 <= i < |rs| :: rs[i].base }

  lemma StartsAreBases(rs: seq<Run>)
    requires Maximal(rs)
    ensures Starts(Cover(rs)) == Bases(rs)
  {
    hide Cover;
    forall x | x in Starts(Cover(rs)) ensures x in Bases(rs) {
      var i := RunOf(rs, x);
      if x != rs[i].base { Holds(rs, i, x - 1); }
    }
    forall x | x in Bases(rs) ensures x in Starts(Cover(rs)) {
      var i :| 0 <= i < |rs| && x == rs[i].base;
      Holds(rs, i, x);
      if x - 1 in Cover(rs) { var j := RunOf(rs, x - 1); }
    }
  }

  lemma {:induction false} BasesAreMany(rs: seq<Run>)
    requires Maximal(rs)
    ensures |Bases(rs)| == |rs|
    decreases |rs|
  {
    hide Bases, Maximal;
    if rs == [] {
      NoBases();
    } else {
      MaximalSlice(rs, 0, |rs| - 1);
      assert rs[0..|rs| - 1] == rs[..|rs| - 1];
      BasesAreMany(rs[..|rs| - 1]);
      LastBaseIsNew(rs);
      BasesSnoc(rs);
    }
  }

  lemma NoBases()
    ensures Bases([]) == {}
  {}

  lemma LastBaseIsNew(rs: seq<Run>)
    requires Maximal(rs) && rs != []
    ensures rs[|rs| - 1].base !in Bases(rs[..|rs| - 1])
  {}

  lemma BasesSnoc(rs: seq<Run>)
    requires rs != []
    ensures Bases(rs) == Bases(rs[..|rs| - 1]) + {rs[|rs| - 1].base}
  {
    var n := |rs| - 1;
    forall x | x in Bases(rs) ensures x in Bases(rs[..n]) + {rs[n].base} {
      var i :| 0 <= i < |rs| && x == rs[i].base;
      if i < n { assert rs[..n][i].base == x; }
    }
    forall x | x in Bases(rs[..n]) ensures x in Bases(rs) {
      var i :| 0 <= i < n && x == rs[..n][i].base;
      assert rs[i].base == x;
    }
  }

  /** The maximal list of a set is as long as the set has runs. */
  lemma RunCount(rs: seq<Run>)
    requires Maximal(rs)
    ensures |Starts(Cover(rs))| == |rs|
  {
    hide Cover, Starts, Bases;
    StartsAreBases(rs);
    BasesAreMany(rs);
  }
}
