/** Every run of the smallest changes, over any number of address spaces, keeps each physical frame
    in exactly one place. */
module Kernel {
  import opened Addr
  import opened Batch
  import opened Entry
  import opened Frames
  import opened Mapper
  import opened Moves
  import opened Ownership
  import opened PageTables
  import opened PhysMem
  import opened Steps
  import opened Refinement
  import opened Results

  /** Memory, free list, frames handed out, frames in callers' hands, and the address spaces. */
  datatype State = State(pages: Memory, stack: seq<Frame>, out: set<Frame>, hand: set<Frame>, spaces: seq<Space>)

  ghost function ViewOf(k: State, i: nat): View
    requires i < |k.spaces|
  {
    View(k.pages, k.stack, k.out, k.spaces[i])
  }

  ghost predicate HeldBySpace(k: State, f: Frame)
  {
    exists i :: 0 <= i < |k.spaces| && f in Owned(k.spaces[i])
  }

  ghost predicate SpaceOk(k: State, i: nat)
    requires i < |k.spaces|
  {
    Sound(ViewOf(k, i)) && Owned(k.spaces[i]) !! k.hand
  }

  ghost predicate ApartSpaces(a: Space, b: Space) { Owned(a) !! Owned(b) }

  /** Free list, hands, pages and tables partition the frames. */
  ghost predicate KernelInv(k: State)
  {
    && |k.pages| == FRAME_COUNT && Distinct(k.stack) && (forall f :: f in k.stack ==> f !in k.out)
    && k.hand <= k.out
    && (forall i :: 0 <= i < |k.spaces| ==> SpaceOk(k, i))
    && (forall i, j {:trigger ApartSpaces(k.spaces[i], k.spaces[j])} ::
          0 <= i < |k.spaces| && 0 <= j < |k.spaces| && i != j ==> ApartSpaces(k.spaces[i], k.spaces[j]))
    && (forall f :: f in k.out ==> f in k.hand || HeldBySpace(k, f))
  }

  ghost function Donated(k: State): set<Frame> { k.out + Members(k.stack) }

  // ---------------------------------------------------------------------------------------
  // Steps
  // ---------------------------------------------------------------------------------------

  datatype Event =
    | Take
    | Give(f: Frame, link: Word)
    | NewSpace(root: Frame)
    | OnSpace(i: nat, p: Prim)
    | OwnerWrite(owned: Frame, word: nat, value: Word)

  /** Space `i` as the operation on it sees it, with everything in the hands. */
  ghost function LocalOf(k: State, i: nat): Local
    requires i < |k.spaces|
  {
    Local(ViewOf(k, i), k.hand)
  }

  ghost function WithLocal(k: State, i: nat, a: Local): State
    requires i < |k.spaces|
  {
    State(a.v.pages, a.v.stack, a.v.out, a.held, k.spaces[i := a.v.space])
  }

  /** When an event can happen; a condition on the state before it only. */
  ghost predicate Enabled(k: State, e: Event)
  {
    && |k.pages| == FRAME_COUNT
    && match e
       case Take => k.stack != []
       case Give(f, _) => f in k.hand
       case NewSpace(root) => root in k.hand
       case OnSpace(i, p) => i < |k.spaces| && Legal(LocalOf(k, i), p)
       case OwnerWrite(f, word, _) =>
         word < WORDS_PER_PAGE && (f in k.hand || exists i :: 0 <= i < |k.spaces| && f in LeafFrames(k.spaces[i]))
  }

  ghost function Next(k: State, e: Event): State
    requires Enabled(k, e)
  {
    match e
    case Take => k.(stack := k.stack[1..], out := k.out + {k.stack[0]}, hand := k.hand + {k.stack[0]})
    case Give(f, link) =>
      k.(pages := Write(k.pages, f, 0, link), stack := [f] + k.stack, out := k.out - {f}, hand := k.hand - {f})
    case NewSpace(root) =>
      k.(pages := k.pages[root := ZeroPage()], hand := k.hand - {root}, spaces := k.spaces + [FreshSpace(root)])
    case OnSpace(i, p) => WithLocal(k, i, After(LocalOf(k, i), p))
    case OwnerWrite(f, word, value) => k.(pages := Write(k.pages, f, word, value))
  }

  ghost predicate Step(k: State, e: Event, k': State) { Enabled(k, e) && k' == Next(k, e) }

  /** Only space `i` and the hands differ besides memory and the allocator. */
  ghost predicate SpaceStep(k: State, k': State, i: nat)
  {
    i < |k.spaces| && |k'.spaces| == |k.spaces| && forall j :: 0 <= j < |k.spaces| && j != i ==> k'.spaces[j] == k.spaces[j]
  }

  /** Memory outside the allocator reads the same. */
  ghost predicate OutsideKept(k: State, k': State)
  {
    |k.pages| == |k'.pages| == FRAME_COUNT && forall f: Frame :: f !in Donated(k) ==> k'.pages[f] == k.pages[f]
  }

  // ---------------------------------------------------------------------------------------
  // Each step keeps the partition
  // ---------------------------------------------------------------------------------------

  /** What space `i` and the hands leave to the other spaces. */
  ghost function Rest(k: State, i: nat): set<Frame>
    requires i < |k.spaces|
  {
    k.out - Owned(k.spaces[i]) - k.hand
  }

  lemma OthersInRest(k: State, i: nat, j: nat)
    requires KernelInv(k) && i < |k.spaces| && j < |k.spaces| && i != j
    ensures Owned(k.spaces[j]) <= Rest(k, i)
  {
    assert SpaceOk(k, j) && ApartSpaces(k.spaces[i], k.spaces[j]);
    OwnedIsOut(k.out, k.spaces[j]);
  }

  /** Another space is untouched by a change that leaves its frames alone. */
  lemma OtherSpaceOk(k: State, k': State, i: nat, j: nat)
    requires KernelInv(k) && SpaceStep(k, k', i) && j < |k.spaces| && j != i
    requires Sound(ViewOf(k', i)) && k'.hand <= k'.out - Owned(k'.spaces[i])
    requires Rest(k', i) == Rest(k, i) && SameOn(k.pages, k'.pages, Rest(k, i))
    ensures SpaceOk(k', j) && ApartSpaces(k'.spaces[i], k'.spaces[j]) && ApartSpaces(k'.spaces[j], k'.spaces[i])
  {
    OthersInRest(k, i, j);
    var sp := k.spaces[j];
    assert SpaceOk(k, j);
    forall n | n in sp.tables ensures k'.pages[sp.tables[n]] == k.pages[sp.tables[n]] {
      assert sp.tables[n] in TableFrames(sp);
    }
    TreeIgnoresOtherFrames(k.pages, k'.pages, sp);
    OwnsInside(k.out, k'.out, sp);
  }

  lemma OwnsInside(out: set<Frame>, out': set<Frame>, sp: Space)
    requires Owns(out, sp) && Owned(sp) <= out'
    ensures Owns(out', sp)
  {
    forall n | n in sp.leaves ensures sp.leaves[n].frame in out' { LeafFrameOf(sp, n); }
  }

  /** An operation on one space that trades frames only with the hands and the free list keeps the
      partition of the whole kernel. */
  lemma SpaceChangeKeeps(k: State, k': State, i: nat)
    requires KernelInv(k) && SpaceStep(k, k', i)
    requires Sound(ViewOf(k', i)) && k'.hand <= k'.out - Owned(k'.spaces[i])
    requires Rest(k', i) == Rest(k, i) && SameOn(k.pages, k'.pages, Rest(k, i))
    ensures KernelInv(k')
  {
    hide Sound, Owned, Rest, ApartSpaces;
    SoundStack(k', i);
    forall j | 0 <= j < |k'.spaces| ensures SpaceOk(k', j) {
      if j != i { OtherSpaceOk(k, k', i, j); }
    }
    forall a, b | 0 <= a < |k'.spaces| && 0 <= b < |k'.spaces| && a != b ensures ApartSpaces(k'.spaces[a], k'.spaces[b]) {
      if a == i { OtherSpaceOk(k, k', i, b); }
      else if b == i { OtherSpaceOk(k, k', i, a); }
      else { assert ApartSpaces(k.spaces[a], k.spaces[b]); }
    }
    forall f | f in k'.out ensures f in k'.hand || HeldBySpace(k', f) {
      StillHeld(k, k', i, f);
    }
  }

  lemma SoundStack(k: State, i: nat)
    requires i < |k.spaces| && Sound(ViewOf(k, i))
    ensures |k.pages| == FRAME_COUNT && Distinct(k.stack) && forall f :: f in k.stack ==> f !in k.out
  {}

  lemma StillHeld(k: State, k': State, i: nat, f: Frame)
    requires KernelInv(k) && SpaceStep(k, k', i) && Rest(k', i) == Rest(k, i) && f in k'.out
    ensures f in k'.hand || HeldBySpace(k', f)
  {
    if f in Owned(k'.spaces[i]) {
      assert HeldBySpace(k', f);
    } else if f !in k'.hand {
      assert f in Rest(k', i);
      assert f in k.out && f !in k.hand;
      var j :| 0 <= j < |k.spaces| && f in Owned(k.spaces[j]);
      assert f in Owned(k'.spaces[j]);
    }
  }

  lemma InvIsLocal(k: State, i: nat)
    requires KernelInv(k) && i < |k.spaces|
    ensures SoundLocal(LocalOf(k, i)) && Foreign(LocalOf(k, i)) == Rest(k, i) && Donated(k) == DonatedFrames(ViewOf(k, i))
    ensures |k.pages| == FRAME_COUNT
  {
    assert SpaceOk(k, i);
    OwnedIsOut(k.out, k.spaces[i]);
  }

  /** A change to one space that moves frames as a sequence of the smallest changes may keeps the
      partition of the whole kernel. */
  lemma LocalKeeps(k: State, i: nat, b: Local)
    requires KernelInv(k) && i < |k.spaces| && Moved(LocalOf(k, i), b)
    ensures var k' := WithLocal(k, i, b);
            KernelInv(k') && Donated(k') == Donated(k) && OutsideKept(k, k')
  {
    hide KernelInv, Sound, Members;
    var a, k' := LocalOf(k, i), WithLocal(k, i, b);
    InvIsLocal(k, i);
    assert ViewOf(k', i) == b.v && k'.hand == b.held;
    assert Rest(k', i) == Foreign(b);
    SpaceChangeKeeps(k, k', i);
  }

  lemma OnSpaceKeeps(k: State, e: Event, k': State)
    requires KernelInv(k) && e.OnSpace? && Step(k, e, k')
    ensures KernelInv(k') && Donated(k') == Donated(k) && OutsideKept(k, k')
  {
    hide KernelInv, Moved, SoundLocal, Foreign, Legal, After;
    InvIsLocal(k, e.i);
    PrimMoves(LocalOf(k, e.i), e.p);
    LocalKeeps(k, e.i, After(LocalOf(k, e.i), e.p));
  }

  /** A space is sound in any state that keeps its frames outstanding and its tables' contents. */
  lemma SpaceStaysOk(k: State, k': State, i: nat)
    requires i < |k.spaces| && i < |k'.spaces| && k'.spaces[i] == k.spaces[i] && SpaceOk(k, i)
    requires StackOk(ViewOf(k', i)) && Owned(k.spaces[i]) <= k'.out && Owned(k.spaces[i]) !! k'.hand
    requires SameOn(k.pages, k'.pages, TableFrames(k.spaces[i]))
    ensures SpaceOk(k', i)
  {
    var sp := k.spaces[i];
    forall n | n in sp.tables ensures k'.pages[sp.tables[n]] == k.pages[sp.tables[n]] {
      assert sp.tables[n] in TableFrames(sp);
    }
    TreeIgnoresOtherFrames(k.pages, k'.pages, sp);
    OwnsInside(k.out, k'.out, sp);
  }

  lemma TakeKeeps(k: State, k': State)
    requires KernelInv(k) && Step(k, Event.Take, k')
    ensures KernelInv(k') && Donated(k') == Donated(k) && OutsideKept(k, k')
  {
    hide Sound, Owned, ApartSpaces;
    var f := k.stack[0];
    assert Members(k.stack) == {f} + Members(k.stack[1..]) by {
      assert k.stack == [f] + k.stack[1..];
    }
    forall i | 0 <= i < |k.spaces| ensures SpaceOk(k', i) {
      assert SpaceOk(k, i);
      SpaceInOut(k, i);
      SpaceStaysOk(k, k', i);
    }
    forall i, j | 0 <= i < |k.spaces| && 0 <= j < |k.spaces| && i != j ensures ApartSpaces(k'.spaces[i], k'.spaces[j]) {
      assert ApartSpaces(k.spaces[i], k.spaces[j]);
    }
    assert forall g :: g in k.out ==> (HeldBySpace(k', g) <==> HeldBySpace(k, g));
  }

  lemma SpaceInOut(k: State, i: nat)
    requires KernelInv(k) && i < |k.spaces|
    ensures Owned(k.spaces[i]) <= k.out && TableFrames(k.spaces[i]) <= Owned(k.spaces[i]) && Owned(k.spaces[i]) !! k.hand
  {
    assert SpaceOk(k, i);
    OwnedIsOut(k.out, k.spaces[i]);
  }

  lemma GiveKeeps(k: State, e: Event, k': State)
    requires KernelInv(k) && e.Give? && Step(k, e, k')
    ensures KernelInv(k') && Donated(k') == Donated(k) && OutsideKept(k, k')
  {
    hide Sound, Owned, ApartSpaces;
    assert Members([e.f] + k.stack) == {e.f} + Members(k.stack);
    forall i | 0 <= i < |k.spaces| ensures SpaceOk(k', i) {
      assert SpaceOk(k, i);
      SpaceInOut(k, i);
      SpaceStaysOk(k, k', i);
    }
    forall i, j | 0 <= i < |k.spaces| && 0 <= j < |k.spaces| && i != j ensures ApartSpaces(k'.spaces[i], k'.spaces[j]) {
      assert ApartSpaces(k.spaces[i], k.spaces[j]);
    }
    assert forall g :: g in k.out ==> (HeldBySpace(k', g) <==> HeldBySpace(k, g));
  }

  lemma OwnerWriteKeeps(k: State, e: Event, k': State)
    requires KernelInv(k) && e.OwnerWrite? && Step(k, e, k')
    ensures KernelInv(k') && Donated(k') == Donated(k) && OutsideKept(k, k')
  {
    hide Sound, Owned, ApartSpaces, Write;
    WrittenIsOut(k, e.owned);
    forall i | 0 <= i < |k.spaces| ensures SpaceOk(k', i) {
      assert SpaceOk(k, i);
      SpaceInOut(k, i);
      WrittenIsNoTable(k, e.owned, i);
      SpaceStaysOk(k, k', i);
    }
    forall i, j | 0 <= i < |k.spaces| && 0 <= j < |k.spaces| && i != j ensures ApartSpaces(k'.spaces[i], k'.spaces[j]) {
      assert ApartSpaces(k.spaces[i], k.spaces[j]);
    }
    assert forall g :: g in k.out ==> (HeldBySpace(k', g) <==> HeldBySpace(k, g));
  }

  lemma WrittenIsOut(k: State, f: Frame)
    requires KernelInv(k) && (f in k.hand || exists j :: 0 <= j < |k.spaces| && f in LeafFrames(k.spaces[j]))
    ensures f in k.out
  {
    if f !in k.hand {
      var j :| 0 <= j < |k.spaces| && f in LeafFrames(k.spaces[j]);
      SpaceInOut(k, j);
    }
  }

  /** A frame in a hand or behind a page is the table of no space. */
  lemma WrittenIsNoTable(k: State, f: Frame, i: nat)
    requires KernelInv(k) && i < |k.spaces|
    requires f in k.hand || exists j :: 0 <= j < |k.spaces| && f in LeafFrames(k.spaces[j])
    ensures f !in TableFrames(k.spaces[i])
  {
    assert SpaceOk(k, i);
    if f !in k.hand {
      var j :| 0 <= j < |k.spaces| && f in LeafFrames(k.spaces[j]);
      assert SpaceOk(k, j);
      if j != i { assert ApartSpaces(k.spaces[i], k.spaces[j]); }
      var n :| n in k.spaces[j].leaves && k.spaces[j].leaves[n].frame == f;
    }
  }

  lemma NewSpaceKeeps(k: State, e: Event, k': State)
    requires KernelInv(k) && e.NewSpace? && Step(k, e, k')
    ensures KernelInv(k') && Donated(k') == Donated(k) && OutsideKept(k, k')
  {
    hide Sound, Owned, ApartSpaces, ZeroPage;
    var n, sp := |k.spaces|, FreshSpace(e.root);
    FreshSpaceOwns(e.root);
    forall i | 0 <= i < |k'.spaces| ensures SpaceOk(k', i) {
      if i < n {
        assert SpaceOk(k, i);
        SpaceInOut(k, i);
        SpaceStaysOk(k, k', i);
      } else {
        FreshSpaceOk(k, e.root, k');
      }
    }
    forall i, j | 0 <= i < |k'.spaces| && 0 <= j < |k'.spaces| && i != j ensures ApartSpaces(k'.spaces[i], k'.spaces[j]) {
      if i < n && j < n { assert ApartSpaces(k.spaces[i], k.spaces[j]); }
      else if i < n { SpaceInOut(k, i); OneFrameApart(k.spaces[i], sp, e.root); }
      else { SpaceInOut(k, j); OneFrameApart(k.spaces[j], sp, e.root); }
    }
    forall f | f in k'.out ensures f in k'.hand || HeldBySpace(k', f) {
      if f == e.root {
        assert f in Owned(k'.spaces[n]);
      } else if f !in k.hand {
        var j :| 0 <= j < |k.spaces| && f in Owned(k.spaces[j]);
        assert f in Owned(k'.spaces[j]);
      }
    }
  }

  lemma FreshSpaceOwns(root: Frame)
    ensures Owned(FreshSpace(root)) == {root} && TableFrames(FreshSpace(root)) == {root}
  {
    var sp := FreshSpace(root);
    assert Root in sp.tables && sp.tables[Root] == root;
    assert LeafFrames(sp) == {};
  }

  lemma OneFrameApart(a: Space, b: Space, f: Frame)
    requires Owned(b) == {f} && f !in Owned(a)
    ensures ApartSpaces(a, b) && ApartSpaces(b, a)
  {}

  lemma FreshSpaceOk(k: State, root: Frame, k': State)
    requires KernelInv(k) && Step(k, NewSpace(root), k')
    ensures SpaceOk(k', |k.spaces|)
  {
    FreshTree(k.pages, root);
  }

  lemma StepKeeps(k: State, e: Event, k': State)
    requires KernelInv(k) && Step(k, e, k')
    ensures KernelInv(k') && Donated(k') == Donated(k) && OutsideKept(k, k')
  {
    hide KernelInv;
    match e
    case Take => TakeKeeps(k, k');
    case Give(_, _) => GiveKeeps(k, e, k');
    case NewSpace(_) => NewSpaceKeeps(k, e, k');
    case OnSpace(_, _) => OnSpaceKeeps(k, e, k');
    case OwnerWrite(_, _, _) => OwnerWriteKeeps(k, e, k');
  }

  // ---------------------------------------------------------------------------------------
  // Runs
  // ---------------------------------------------------------------------------------------

  ghost predicate IsRun(trace: seq<State>, events: seq<Event>)
  {
    && |trace| == |events| + 1
    && forall i :: 0 <= i < |events| ==> Step(trace[i], events[i], trace[i + 1])
  }

  /** The state right after boot: every frame on the free list, no address space. */
  ghost predicate Booted(k: State)
  {
    |k.pages| == FRAME_COUNT && Distinct(k.stack) && k.out == {} && k.hand == {} && k.spaces == []
  }

  /** Every run from a state with the partition keeps it, conserves the frames and writes no frame
      outside the allocator. */
  lemma {:induction false} RunKeeps(trace: seq<State>, events: seq<Event>, n: nat)
    requires IsRun(trace, events) && KernelInv(trace[0]) && n < |trace|
    ensures KernelInv(trace[n]) && Donated(trace[n]) == Donated(trace[0]) && OutsideKept(trace[0], trace[n])
    decreases n
  {
    hide Step, KernelInv, Donated;
    if n == 0 {
      MemorySize(trace[0]);
    } else {
      RunKeeps(trace, events, n - 1);
      assert Step(trace[n - 1], events[n - 1], trace[n - 1 + 1]);
      StepKeeps(trace[n - 1], events[n - 1], trace[n]);
    }
  }

  lemma MemorySize(k: State)
    requires KernelInv(k)
    ensures |k.pages| == FRAME_COUNT
  {}

  /** In every state of every run from boot the partition holds, no frame appears or disappears, and
      memory that was never donated, such as the bitmap and the kernel image, is untouched. */
  lemma EveryRunKeepsPartition(trace: seq<State>, events: seq<Event>, n: nat)
    requires IsRun(trace, events) && Booted(trace[0]) && n < |trace|
    ensures KernelInv(trace[n]) && Donated(trace[n]) == Donated(trace[0])
    ensures forall f: Frame :: f !in Donated(trace[0]) ==> trace[n].pages[f] == trace[0].pages[f]
  {
    hide Step;
    RunKeeps(trace, events, n);
  }

  // ---------------------------------------------------------------------------------------
  // Operations on one space as runs
  // ---------------------------------------------------------------------------------------

  /** One change made with some of the frames in the hands, made with all of them. */
  lemma LegalWithMore(v: View, held: set<Frame>, more: set<Frame>, p: Prim)
    requires Legal(Local(v, held), p) && held !! more
    ensures Legal(Local(v, held + more), p)
    ensures After(Local(v, held + more), p).v == After(Local(v, held), p).v
    ensures After(Local(v, held + more), p).held == After(Local(v, held), p).held + more
  {
    hide Put, WithTable, WithLeaf, WithoutLeaf, TableWord, LeafWord, Write;
  }

  lemma MoreStaysApart(v: View, held: set<Frame>, more: set<Frame>, p: Prim)
    requires SoundLocal(Local(v, held + more)) && held !! more && Legal(Local(v, held), p)
    ensures After(Local(v, held), p).held !! more
  {
    hide TreeInv;
    if p.ClearPage? { LeafFrameOf(v.space, p.n); }
  }

  /** A sequence of changes to space `i` with the frames `held` is a run of the kernel; the other
      frames in the hands stay there. */
  lemma {:induction false} Lift(k: State, i: nat, held: set<Frame>, more: set<Frame>, ps: seq<Prim>, b: Local)
    returns (trace: seq<State>, events: seq<Event>)
    requires KernelInv(k) && i < |k.spaces| && k.hand == held + more && held !! more
    requires Leads(Local(ViewOf(k, i), held), ps, b)
    ensures IsRun(trace, events) && trace[0] == k
    ensures trace[|events|] == WithLocal(k, i, Local(b.v, b.held + more))
    decreases |ps|
  {
    hide KernelInv, Legal, After, SoundLocal;
    if ps == [] {
      trace, events := [k], [];
      assert k.spaces[i := k.spaces[i]] == k.spaces;
    } else {
      var v, p := ViewOf(k, i), ps[0];
      InvIsLocal(k, i);
      LegalWithMore(v, held, more, p);
      MoreStaysApart(v, held, more, p);
      var k1 := Next(k, OnSpace(i, p));
      StepKeeps(k, OnSpace(i, p), k1);
      var rest, later := Lift(k1, i, After(Local(v, held), p).held, more, ps[1..], b);
      trace, events := [k] + rest, [OnSpace(i, p)] + later;
      RunCons(k, OnSpace(i, p), rest, later);
      assert k1.spaces[i := b.v.space] == k.spaces[i := b.v.space];
    }
  }

  lemma RunCons(k: State, e: Event, trace: seq<State>, events: seq<Event>)
    requires IsRun(trace, events) && Step(k, e, trace[0])
    ensures IsRun([k] + trace, [e] + events)
  {
    hide Step;
    var t, es := [k] + trace, [e] + events;
    forall i | 0 <= i < |es| ensures Step(t[i], es[i], t[i + 1]) {
      if i > 0 { assert Step(trace[i - 1], events[i - 1], trace[i - 1 + 1]); }
    }
  }

  lemma RunConcat(trace: seq<State>, events: seq<Event>, rest: seq<State>, later: seq<Event>)
    requires IsRun(trace, events) && IsRun(rest, later) && rest[0] == trace[|events|]
    ensures IsRun(trace + rest[1..], events + later)
  {
    hide Step;
    var t, es := trace + rest[1..], events + later;
    forall i | 0 <= i < |es| ensures Step(t[i], es[i], t[i + 1]) {
      if i < |events| {
        assert Step(trace[i], events[i], trace[i + 1]);
      } else {
        var j := i - |events|;
        assert Step(rest[j], later[j], rest[j + 1]);
        assert t[i] == rest[j] && t[i + 1] == rest[j + 1];
      }
    }
  }

  /** `k'` comes after `k` in some run. */
  ghost predicate Follows(k: State, k': State)
  {
    exists trace, events :: IsRun(trace, events) && trace[0] == k && trace[|events|] == k'
  }

  lemma FollowsTrans(a: State, b: State, c: State)
    requires Follows(a, b) && Follows(b, c)
    ensures Follows(a, c)
  {
    hide Step;
    var t, es :| IsRun(t, es) && t[0] == a && t[|es|] == b;
    var u, fs :| IsRun(u, fs) && u[0] == b && u[|fs|] == c;
    RunConcat(t, es, u, fs);
    var w := t + u[1..];
    assert w[|es + fs|] == c;
  }

  lemma FollowsStep(k: State, e: Event, k': State)
    requires Step(k, e, k')
    ensures Follows(k, k')
  {
    hide Step;
    assert IsRun([k, k'], [e]);
  }

  lemma FollowsNothing(k: State)
    ensures Follows(k, k)
  {
    assert IsRun([k], []);
  }

  /** What an operation on space `i` reaches is reached by a run of the kernel. */
  lemma FollowsLocal(k: State, i: nat, held: set<Frame>, b: Local)
    requires KernelInv(k) && i < |k.spaces| && held <= k.hand && Reach(Local(ViewOf(k, i), held), b)
    ensures Follows(k, WithLocal(k, i, Local(b.v, b.held + (k.hand - held))))
  {
    hide KernelInv, IsRun;
    var ps :| Leads(Local(ViewOf(k, i), held), ps, b);
    assert k.hand == held + (k.hand - held);
    var trace, events := Lift(k, i, held, k.hand - held, ps, b);
  }

  /** What follows a state with the partition has it too. */
  lemma FollowsKeeps(k: State, k': State)
    requires KernelInv(k) && Follows(k, k')
    ensures KernelInv(k') && Donated(k') == Donated(k) && OutsideKept(k, k')
  {
    hide KernelInv, Step;
    var trace, events :| IsRun(trace, events) && trace[0] == k && trace[|events|] == k';
    RunKeeps(trace, events, |events|);
  }

  // ---------------------------------------------------------------------------------------
  // Where frames are
  // ---------------------------------------------------------------------------------------

  /** Where a frame can be. */  /** Where a frame can be. */
  datatype Place = OnFreeList | InHand | BehindPage(i: nat, page: Node) | IsTable(i: nat, node: Node)

  ghost predicate IsAt(k: State, f: Frame, p: Place)
  {
    match p
    case OnFreeList => f in k.stack
    case InHand => f in k.hand
    case BehindPage(i, n) => i < |k.spaces| && n in k.spaces[i].leaves && k.spaces[i].leaves[n].frame == f
    case IsTable(i, n) => i < |k.spaces| && n in k.spaces[i].tables && k.spaces[i].tables[n] == f
  }

  /** A place in a space means the space holds the frame. */
  lemma PlaceIsOwned(k: State, f: Frame, p: Place)
    requires IsAt(k, f, p) && (p.BehindPage? || p.IsTable?)
    ensures f in Owned(k.spaces[p.i])
    ensures p.IsTable? ==> f in TableFrames(k.spaces[p.i])
  {
    if p.BehindPage? { LeafFrameOf(k.spaces[p.i], p.page); }
  }

  lemma OneHolder(k: State, i: nat, j: nat, f: Frame)
    requires KernelInv(k) && i < |k.spaces| && j < |k.spaces| && f in Owned(k.spaces[i]) && f in Owned(k.spaces[j])
    ensures i == j
  {
    var a, b := k.spaces[i], k.spaces[j];
    assert i != j ==> ApartSpaces(a, b);
  }

  /** No frame is at two places. */
  lemma AtMostOnePlace(k: State, f: Frame, p: Place, q: Place)
    requires KernelInv(k) && IsAt(k, f, p) && IsAt(k, f, q)
    ensures p == q
  {
    hide TreeInv;
    if p.BehindPage? || p.IsTable? { PlaceIsOwned(k, f, p); SpaceInOut(k, p.i); assert SpaceOk(k, p.i); }
    if q.BehindPage? || q.IsTable? { PlaceIsOwned(k, f, q); SpaceInOut(k, q.i); assert SpaceOk(k, q.i); }
    if (p.BehindPage? || p.IsTable?) && (q.BehindPage? || q.IsTable?) {
      OneHolder(k, p.i, q.i, f);
      SameSpacePlaces(k, f, p, q);
    }
  }

  lemma SameSpacePlaces(k: State, f: Frame, p: Place, q: Place)
    requires IsAt(k, f, p) && IsAt(k, f, q) && (p.BehindPage? || p.IsTable?) && (q.BehindPage? || q.IsTable?)
    requires p.i == q.i && Owns(k.out, k.spaces[p.i]) && TreeInv(k.pages, k.spaces[p.i])
    ensures p == q
  {
    PlaceIsOwned(k, f, p);
    PlaceIsOwned(k, f, q);
  }

  /** Every donated frame is somewhere. */
  lemma SomePlace(k: State, f: Frame) returns (p: Place)
    requires KernelInv(k) && f in Donated(k)
    ensures IsAt(k, f, p)
  {
    if f in k.stack {
      p := OnFreeList;
    } else if f in k.hand {
      p := InHand;
    } else {
      assert HeldBySpace(k, f);
      var i :| 0 <= i < |k.spaces| && f in Owned(k.spaces[i]);
      if f in TableFrames(k.spaces[i]) {
        var n :| n in k.spaces[i].tables && k.spaces[i].tables[n] == f;
        p := IsTable(i, n);
      } else {
        var n :| n in k.spaces[i].leaves && k.spaces[i].leaves[n].frame == f;
        p := BehindPage(i, n);
      }
    }
  }

  /** In every state of every run each donated frame is in exactly one place. */
  lemma EachFrameInOnePlace(trace: seq<State>, events: seq<Event>, n: nat, f: Frame)
    requires IsRun(trace, events) && Booted(trace[0]) && n < |trace| && f in Donated(trace[0])
    ensures exists p :: IsAt(trace[n], f, p) && forall q :: IsAt(trace[n], f, q) ==> q == p
  {
    hide KernelInv, IsAt;
    EveryRunKeepsPartition(trace, events, n);
    var p := SomePlace(trace[n], f);
    forall q | IsAt(trace[n], f, q) ensures q == p {
      AtMostOnePlace(trace[n], f, p, q);
    }
  }

  /** Two addresses that translate into the same frame are on the same page of the same space, and
      that frame holds no page table. */
  lemma NoFrameIsShared(k: State, i: nat, v: Word, j: nat, w: Word)
    requires KernelInv(k) && i < |k.spaces| && j < |k.spaces| && IsCanonical(v) && IsCanonical(w)
    requires Translate(k.pages, k.spaces[i].root, v).Some? && Translate(k.pages, k.spaces[j].root, w).Some?
    requires SameFrame(Translate(k.pages, k.spaces[i].root, v).value.0, Translate(k.pages, k.spaces[j].root, w).value.0)
    ensures i == j && SamePage(v, w)
    ensures forall h, n :: 0 <= h < |k.spaces| && n in k.spaces[h].tables
              ==> k.spaces[h].tables[n] != Translate(k.pages, k.spaces[i].root, v).value.0 / PAGE_SIZE
  {
    hide Translate, IsCanonical, PageNode, KernelInv, Owns, Others, TreeInv, Owned;
    SoundSpace(k, i);
    SoundSpace(k, j);
    TranslateIsFlat(k.pages, k.spaces[i], v);
    TranslateIsFlat(k.pages, k.spaces[j], w);
    var f := k.spaces[i].leaves[PageNode(v)].frame;
    FrameOfAddress(f, v);
    FrameOfAddress(k.spaces[j].leaves[PageNode(w)].frame, w);
    AtMostOnePlace(k, f, BehindPage(i, PageNode(v)), BehindPage(j, PageNode(w)));
    PageNodeIsInjective(v, w);
    forall h, n | 0 <= h < |k.spaces| && n in k.spaces[h].tables ensures k.spaces[h].tables[n] != f {
      if k.spaces[h].tables[n] == f { AtMostOnePlace(k, f, BehindPage(i, PageNode(v)), IsTable(h, n)); }
    }
  }

  lemma HandIsOut(k: State)
    requires KernelInv(k)
    ensures k.hand <= k.out && |k.pages| == FRAME_COUNT
  {}

  lemma SoundSpace(k: State, i: nat)
    requires KernelInv(k) && i < |k.spaces|
    ensures Sound(ViewOf(k, i))
  {
    assert SpaceOk(k, i);
  }

  predicate SameFrame(p: int, q: int) { p / PAGE_SIZE == q / PAGE_SIZE }

  lemma FrameOfAddress(f: Frame, v: Word)
    ensures (f * PAGE_SIZE + v % PAGE_SIZE) / PAGE_SIZE == f
  {}
}
