/** How many frames backing a range of pages takes: one per page and one per missing table. */
module Demand {
  import opened Addr
  import opened Batch
  import opened Entry
  import opened Mapper
  import opened Ownership
  import opened PageTables
  import opened PhysMem
  import opened Steps

  ghost function PathAt(base: int, j: int): set<Node>
  {
    if 0 <= PageAt(base, j) < WORD_LIMIT then Path(PageAt(base, j)) else {}
  }

  /** The tables below the root that the first `n` pages of a range need. */
  ghost function TablesFor(base: int, n: nat): set<Node>
  {
    if n == 0 then {} else TablesFor(base, n - 1) + PathAt(base, n - 1)
  }

  /** The frames that backing the first `n` pages takes. */
  ghost function Need(sp: Space, base: int, n: nat): nat
  {
    n + |TablesFor(base, n) - sp.tables.Keys|
  }

  /** No page of the range is mapped and there are frames enough to back it. */
  ghost predicate Backable(v: View, base: int, n: nat)
  {
    Nodes(base, 0, n) !! v.space.leaves.Keys && Need(v.space, base, n) <= |v.stack|
  }

  /** How far the page loop of `alloc_and_map` gets. */
  datatype LoopResult = AllMapped | NoFrame | Rejected(error: MapError) | LoopStopped

  /** What the loop does at page `i`, told from the state before the loop. */
  ghost function FateAt(v: View, base: int, i: nat): LoopResult
  {
    if |v.stack| <= Need(v.space, base, i) then NoFrame
    else if NodeAt(base, i) in v.space.leaves then Rejected(AlreadyMapped)
    else if |v.stack| < Need(v.space, base, i + 1) then LoopStopped
    else AllMapped
  }

  /** The outcome of the loop from page `i` on, and the number of pages mapped. */
  ghost function Fate(v: View, base: int, i: nat, n: nat): (LoopResult, nat)
    requires i <= n
    decreases n - i
  {
    if i == n then (AllMapped, n)
    else if FateAt(v, base, i).AllMapped? then Fate(v, base, i + 1, n)
    else (FateAt(v, base, i), i)
  }

  /** The tables of the first `i` pages exist, and what they and the pages took is gone. */
  ghost predicate Spent(v0: View, v: View, base: int, i: nat)
  {
    && v.space.tables.Keys == v0.space.tables.Keys + TablesFor(base, i)
    && |v.stack| + Need(v0.space, base, i) == |v0.stack|
  }

  lemma SpentAtStart(v: View, base: int)
    ensures Spent(v, v, base, 0)
  {
    assert TablesFor(base, 0) == {} && {} - v.space.tables.Keys == {};
    assert v.space.tables.Keys + {} == v.space.tables.Keys;
  }

  /** The tables a walk misses are those of the path that do not exist. */
  lemma MissingIsPath(m: Memory, sp: Space, v: Word)
    requires TreeInv(m, sp)
    ensures Missing(sp, v) == |Path(v) - sp.tables.Keys|
  {
    hide TreeInv, L1Node, L2Node, L3Node;
    MappedHasTable(m, sp, v);
    NodesOnTheWay(v);
    var gone := Path(v) - sp.tables.Keys;
    assert gone == if L1Node(v) in sp.tables then {} else if L2Node(v) in sp.tables then {L1Node(v)}
                   else if L3Node(v) in sp.tables then {L2Node(v), L1Node(v)} else {L3Node(v), L2Node(v), L1Node(v)};
  }

  /** What `p` adds to `a` outside `k`. */
  lemma AddedSize<T>(a: set<T>, p: set<T>, k: set<T>)
    ensures |(a + p) - k| == |a - k| + |p - (k + a)|
  {
    assert (a + p) - k == (a - k) + (p - (k + a));
  }

  /** One page more takes a frame and the tables that are still missing. */
  lemma NeedNext(sp0: Space, sp: Space, base: int, i: nat)
    requires sp.tables.Keys == sp0.tables.Keys + TablesFor(base, i)
    ensures Need(sp0, base, i + 1) == Need(sp0, base, i) + 1 + |PathAt(base, i) - sp.tables.Keys|
  {
    hide PathAt;
    AddedSize(TablesFor(base, i), PathAt(base, i), sp0.tables.Keys);
  }

  lemma NeedStep(sp: Space, base: int, i: nat)
    ensures Need(sp, base, i) <= Need(sp, base, i + 1)
  {
    hide PathAt;
    AddedSize(TablesFor(base, i), PathAt(base, i), sp.tables.Keys);
  }

  lemma {:induction false} NeedGrows(sp: Space, base: int, i: nat, n: nat)
    requires i <= n
    ensures Need(sp, base, i) <= Need(sp, base, n)
    decreases n
  {
    hide Need;
    if i < n {
      NeedGrows(sp, base, i, n - 1);
      NeedStep(sp, base, n - 1);
    }
  }

  /** A frame taken and mapped at page `i`. */
  lemma SpentNext(v0: View, v: View, v1: View, v2: View, base: int, i: nat, l: Leaf)
    requires Spent(v0, v, base, i) && TreeInv(v.pages, v.space) && 0 <= PageAt(base, i) < WORD_LIMIT
    requires v.stack != [] && v1.stack == v.stack[1..] && v1.space == v.space
    requires MapStep(v1, v2, PageAt(base, i), l)
    requires v2.space.tables.Keys == v1.space.tables.Keys + Path(PageAt(base, i))
    ensures Spent(v0, v2, base, i + 1)
  {
    hide TreeInv, Missing, Path, PageNode, Need;
    MissingIsPath(v.pages, v.space, PageAt(base, i));
    NeedNext(v0.space, v.space, base, i);
  }

  /** What the loop finds at page `i` is what the state before the loop says. */
  lemma Turn(v0: View, v: View, base: int, n: nat, i: nat, flags: PageFlags)
    requires Partly(v0, v, base, 0, i, flags) && Spent(v0, v, base, i) && GoodRange(base, n) && i < n
    requires 0 <= PageAt(base, i) < WORD_LIMIT
    ensures v.stack == [] <==> |v0.stack| <= Need(v0.space, base, i)
    ensures NodeAt(base, i) in v.space.leaves <==> NodeAt(base, i) in v0.space.leaves
    ensures |v0.stack| < Need(v0.space, base, i + 1) <==> |v.stack| < 1 + Missing(v.space, PageAt(base, i))
  {
    hide TreeInv, Missing, Path, Need, NodeAt, Evolved, Owns, StackOk, TablesFor, GoodRange, Nodes;
    MissingIsPath(v.pages, v.space, PageAt(base, i));
    NeedNext(v0.space, v.space, base, i);
    NotYetMapped(v0, v, base, n, i, flags);
  }

  lemma NotYetMapped(v0: View, v: View, base: int, n: int, i: nat, flags: PageFlags)
    requires LeavesPlus(v0, v, base, 0, i, flags) && GoodRange(base, n) && i < n
    ensures NodeAt(base, i) in v.space.leaves <==> NodeAt(base, i) in v0.space.leaves
  {
    hide NodeAt;
    if NodeAt(base, i) in Nodes(base, 0, i) {
      var j :| 0 <= j < i && NodeAt(base, i) == NodeAt(base, j);
      NodesDiffer(base, n, i, j);
    }
  }

  lemma FateAtMapped(v: View, base: int, i: nat)
    ensures FateAt(v, base, i).AllMapped?
      <==> NodeAt(base, i) !in v.space.leaves && Need(v.space, base, i + 1) <= |v.stack|
  {
    hide TablesFor, NodeAt;
    NeedStrict(v.space, base, i);
  }

  lemma NeedStrict(sp: Space, base: int, i: nat)
    ensures Need(sp, base, i) < Need(sp, base, i + 1)
  {
    hide PathAt;
    AddedSize(TablesFor(base, i), PathAt(base, i), sp.tables.Keys);
  }

  /** The first `i` pages can be backed. */
  lemma {:induction false} BackablePrefix(v: View, base: int, i: nat)
    ensures Backable(v, base, i) <==> forall j :: 0 <= j < i ==> FateAt(v, base, j).AllMapped?
  {
    hide Need, NodeAt, FateAt;
    if i == 0 {
      NoNeed(v.space, base);
    } else {
      BackablePrefix(v, base, i - 1);
      FateAtMapped(v, base, i - 1);
      NodesSnoc(base, 0, i - 1);
      NeedGrows(v.space, base, i - 1, i);
    }
  }

  lemma NoNeed(sp: Space, base: int)
    ensures Need(sp, base, 0) == 0 && Nodes(base, 0, 0) == {}
  {}

  lemma {:induction false} FateStops(v: View, base: int, i: nat, n: nat)
    requires i <= n
    ensures var (r, k) := Fate(v, base, i, n);
            && i <= k <= n && (r.AllMapped? <==> k == n) && (k < n ==> r == FateAt(v, base, k) && !r.AllMapped?)
            && forall j :: i <= j < k ==> FateAt(v, base, j).AllMapped?
    decreases n - i
  {
    hide FateAt;
    if i < n && FateAt(v, base, i).AllMapped? { FateStops(v, base, i + 1, n); }
  }

  /** The loop maps everything exactly when the range can be backed. */
  lemma FateIsBackable(v: View, base: int, n: nat)
    ensures Fate(v, base, 0, n).0.AllMapped? <==> Backable(v, base, n)
  {
    hide FateAt, Backable, Fate;
    FateStops(v, base, 0, n);
    BackablePrefix(v, base, n);
  }

  /** The pages before some page take exactly the free frames. */
  ghost predicate RunsDry(v: View, base: int, n: nat)
  {
    exists i :: 0 <= i < n && Backable(v, base, i) && |v.stack| == Need(v.space, base, i)
  }

  /** Some page is mapped, and the pages before it leave a frame to try it with. */
  ghost predicate MeetsMapped(v: View, base: int, n: nat)
  {
    exists i :: 0 <= i < n && Backable(v, base, i) && Need(v.space, base, i) < |v.stack| && NodeAt(base, i) in v.space.leaves
  }

  /** The frames give out between the own frame of some unmapped page and its last table. */
  ghost predicate LacksTable(v: View, base: int, n: nat)
  {
    exists i :: 0 <= i < n && Backable(v, base, i) && NodeAt(base, i) !in v.space.leaves
                && Need(v.space, base, i) < |v.stack| < Need(v.space, base, i + 1)
  }

  /** When the loop ends in the panic. */
  lemma WhenLoopStops(v: View, base: int, n: nat)
    ensures Fate(v, base, 0, n).0.LoopStopped? <==> LacksTable(v, base, n)
  {
    hide Fate, Need, Backable, NodeAt;
    FateStops(v, base, 0, n);
    var (r, k) := Fate(v, base, 0, n);
    BackablePrefix(v, base, k);
    forall i | 0 <= i < n && Backable(v, base, i) && FateAt(v, base, i).LoopStopped? ensures i == k {
      BackablePrefix(v, base, i);
    }
  }

  /** When it ends without a frame for a page. */
  lemma WhenNoFrame(v: View, base: int, n: nat)
    ensures Fate(v, base, 0, n).0.NoFrame? <==> RunsDry(v, base, n)
  {
    hide Fate, Need, Backable, NodeAt;
    FateStops(v, base, 0, n);
    var (r, k) := Fate(v, base, 0, n);
    BackablePrefix(v, base, k);
    BackableNeed(v, base, k);
    forall i | 0 <= i < n && Backable(v, base, i) && FateAt(v, base, i).NoFrame? ensures i == k {
      BackablePrefix(v, base, i);
    }
  }

  /** When it ends at a page that is mapped. */
  lemma WhenRejected(v: View, base: int, n: nat)
    ensures Fate(v, base, 0, n).0.Rejected? <==> MeetsMapped(v, base, n)
    ensures Fate(v, base, 0, n).0.Rejected? ==> Fate(v, base, 0, n).0.error == AlreadyMapped
  {
    hide Fate, Need, Backable, NodeAt;
    FateStops(v, base, 0, n);
    var (r, k) := Fate(v, base, 0, n);
    BackablePrefix(v, base, k);
    forall i | 0 <= i < n && Backable(v, base, i) && FateAt(v, base, i).Rejected? ensures i == k {
      BackablePrefix(v, base, i);
    }
  }

  /** Exactly one of the four happens. */
  lemma OneOutcome(v: View, base: int, n: nat)
    ensures Backable(v, base, n) || RunsDry(v, base, n) || MeetsMapped(v, base, n) || LacksTable(v, base, n)
    ensures Backable(v, base, n) ==> !RunsDry(v, base, n) && !MeetsMapped(v, base, n) && !LacksTable(v, base, n)
    ensures RunsDry(v, base, n) ==> !MeetsMapped(v, base, n) && !LacksTable(v, base, n)
    ensures MeetsMapped(v, base, n) ==> !LacksTable(v, base, n)
  {
    hide Fate, Backable, RunsDry, MeetsMapped, LacksTable;
    FateIsBackable(v, base, n);
    WhenLoopStops(v, base, n);
    WhenNoFrame(v, base, n);
    WhenRejected(v, base, n);
  }

  lemma BackableNeed(v: View, base: int, k: nat)
    ensures Backable(v, base, k) ==> Need(v.space, base, k) <= |v.stack|
  {}

  /** The loop fails before it maps a page exactly when there is no frame or the first page is mapped. */
  lemma FailsAtOnce(v: View, base: int, n: nat)
    requires n > 0
    ensures var (r, k) := Fate(v, base, 0, n);
            r.NoFrame? || r.Rejected? ==> (k == 0 <==> v.stack == [] || NodeAt(base, 0) in v.space.leaves)
  {
    hide NodeAt, TablesFor;
    NoNeed(v.space, base);
    FateStops(v, base, 0, n);
    assert FateAt(v, base, 0) == FateAt(v, base, 0);
  }
}
