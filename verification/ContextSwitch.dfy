/** The x86_64 context switch as a stack machine. */
module ContextSwitch {

  /** Words of memory by address. */
  type Memory = map<int, int>

  predicate WordAt(m: Memory, a: int, v: int) { a in m && m[a] == v }

  /** What a suspended task gets back: the callee-saved registers, where it continues, and its
      stack pointer there. */
  datatype Saved = Saved(rbx: int, rbp: int, r12: int, r13: int, r14: int, r15: int, rip: int, rsp: int)

  /** The seven words a switch leaves on a stack, from the saved stack pointer up. */
  ghost predicate FrameAt(m: Memory, sp: int, s: Saved)
  {
    && WordAt(m, sp, s.r15) && WordAt(m, sp + 8, s.r14) && WordAt(m, sp + 16, s.r13) && WordAt(m, sp + 24, s.r12)
    && WordAt(m, sp + 32, s.rbp) && WordAt(m, sp + 40, s.rbx) && WordAt(m, sp + 48, s.rip)
    && s.rsp == sp + 56
  }

  /** The address range of a stack. */
  datatype Stack = Stack(lo: int, hi: int) {
    predicate Has(a: int) { lo <= a < hi }
  }

  ghost predicate StacksApart(a: Stack, b: Stack) { a.hi <= b.lo || b.hi <= a.lo }

  /** Stacks do not overlap, and no context slot lies in a stack. */
  ghost predicate Layout(stacks: map<int, Stack>)
  {
    && (forall a, b :: a in stacks && b in stacks && a != b ==> StacksApart(stacks[a], stacks[b]))
    && (forall a, c :: a in stacks && c in stacks ==> !stacks[a].Has(c))
  }

  /** A task suspended in slot `c` has its frame on its own stack. */
  ghost predicate SuspendedAt(m: Memory, stacks: map<int, Stack>, c: int, s: Saved)
  {
    && c in stacks && c in m
    && FrameAt(m, m[c], s)
    && stacks[c].lo <= m[c] && m[c] + 56 <= stacks[c].hi
  }

  ghost predicate AllSuspended(m: Memory, stacks: map<int, Stack>, suspended: map<int, Saved>)
  {
    forall c :: c in suspended ==> SuspendedAt(m, stacks, c, suspended[c])
  }

  /** The slot and the stack of task `c` read the same in both memories. */
  ghost predicate SameTask(m: Memory, m': Memory, stacks: map<int, Stack>, c: int)
    requires c in stacks
  {
    forall a :: a in m && (a == c || stacks[c].Has(a)) ==> a in m' && m'[a] == m[a]
  }

  lemma SameTaskStaysSuspended(m: Memory, m': Memory, stacks: map<int, Stack>, c: int, s: Saved)
    requires SuspendedAt(m, stacks, c, s) && SameTask(m, m', stacks, c)
    ensures SuspendedAt(m', stacks, c, s)
  {
    var sp, st := m[c], stacks[c];
    assert st.Has(sp) && st.Has(sp + 8) && st.Has(sp + 16) && st.Has(sp + 24);
    assert st.Has(sp + 32) && st.Has(sp + 40) && st.Has(sp + 48);
  }

  /** Writes that stay off the slots and stacks of suspended tasks leave all of them intact. */
  lemma TasksUntouched(m: Memory, m': Memory, stacks: map<int, Stack>, suspended: map<int, Saved>)
    requires AllSuspended(m, stacks, suspended)
    requires forall c :: c in suspended ==> c in stacks && SameTask(m, m', stacks, c)
    ensures AllSuspended(m', stacks, suspended)
  {
    forall c | c in suspended ensures SuspendedAt(m', stacks, c, suspended[c]) {
      SameTaskStaysSuspended(m, m', stacks, c, suspended[c]);
    }
  }

  // ---------------------------------------------------------------------------------------
  // The machine without its memory
  // ---------------------------------------------------------------------------------------

  /** Who runs, with which registers, who is suspended, and the stacks. */
  datatype State = State(current: int, regs: Saved, suspended: map<int, Saved>, stacks: map<int, Stack>)

  /** The running task computes and writes, a task is created, or the running task switches. */
  datatype Event =
    | Compute(regs: Saved, writes: Memory)
    | Create(slot: int, stack: Stack, entry: int)
    | Switch(from: int, to: int, ret: int)

  /** The stack top rounded down to 16 bytes. */
  function Top(stack: Stack): int { stack.hi - stack.hi % 16 }

  /** The context of a task that has not run yet, below one spare word. */
  function Initial(stack: Stack, entry: int): Saved { Saved(0, 0, 0, 0, 0, 0, entry, Top(stack) - 8) }

  /** What the kernel must respect: a task writes no other task's stack and no context slot, stacks
      are apart and large enough, and switches go to tasks that exist. */
  ghost predicate Legal(s: State, e: Event)
  {
    match e
    case Compute(_, writes) =>
      forall a :: a in writes ==> a !in s.stacks && forall c :: c in s.stacks && c != s.current ==> !s.stacks[c].Has(a)
    case Create(slot, stack, _) =>
      slot !in s.stacks && Layout(s.stacks[slot := stack]) && stack.lo <= Top(stack) - 64
    case Switch(from, to, _) =>
      && from == s.current && (to == from || to in s.suspended)
      && from in s.stacks && s.stacks[from].lo <= s.regs.rsp - 56 && s.regs.rsp <= s.stacks[from].hi
  }

  ghost function After(s: State, e: Event): State
    requires Legal(s, e)
  {
    match e
    case Compute(regs, _) => s.(regs := regs)
    case Create(slot, stack, entry) =>
      s.(suspended := s.suspended[slot := Initial(stack, entry)], stacks := s.stacks[slot := stack])
    case Switch(from, to, ret) =>
      var saved := s.suspended[from := s.regs.(rip := ret)];
      State(to, saved[to], saved - {to}, s.stacks)
  }

  ghost predicate Step(s: State, e: Event, s': State) { Legal(s, e) && s' == After(s, e) }

  ghost predicate IsRun(trace: seq<State>, events: seq<Event>)
  {
    && |trace| == |events| + 1
    && forall i :: 0 <= i < |events| ==> Step(trace[i], events[i], trace[i + 1])
  }

  /** Every event is legal in the state it finds. */
  ghost predicate LegalRun(s: State, events: seq<Event>)
    decreases |events|
  {
    events == [] || (Legal(s, events[0]) && LegalRun(After(s, events[0]), events[1..]))
  }

  class Cpu {
    var rbx: int
    var rbp: int
    var r12: int
    var r13: int
    var r14: int
    var r15: int
    var rsp: int
    var rip: int
    var mem: Memory

    /** The slot of the running task, the contexts of the suspended ones, and all stacks. */
    ghost var current: int
    ghost var suspended: map<int, Saved>
    ghost var stacks: map<int, Stack>

    ghost predicate Valid()
      reads this
    {
      && Layout(stacks) && current in stacks && current !in suspended && suspended.Keys <= stacks.Keys
      && AllSuspended(mem, stacks, suspended)
    }

    /** The registers the calling convention preserves, with the point of execution. */
    ghost function Regs(): Saved
      reads this
    {
      Saved(rbx, rbp, r12, r13, r14, r15, rip, rsp)
    }

    ghost function Now(): State
      reads this
    {
      State(current, Regs(), suspended, stacks)
    }

    lemma StacksNow()
      requires Valid()
      ensures HaveStacks(Now())
    {}

    constructor (slot: int, stack: Stack)
      requires !stack.Has(slot)
      ensures Valid() && current == slot && suspended == map[] && stacks == map[slot := stack]
    {
      rbx, rbp, r12, r13, r14, r15, rsp, rip := 0, 0, 0, 0, 0, 0, stack.hi, 0;
      mem := map[];
      current, suspended, stacks := slot, map[], map[slot := stack];
    }

    method Push(v: int)
      modifies this`rsp, this`mem
      ensures rsp == old(rsp) - 8 && mem == old(mem)[rsp := v]
    {
      rsp := rsp - 8;
      mem := mem[rsp := v];
    }

    method Pop() returns (v: int)
      requires rsp in mem
      modifies this`rsp
      ensures rsp == old(rsp) + 8 && v == mem[old(rsp)]
    {
      v := mem[rsp];
      rsp := rsp + 8;
    }

    /** The call that puts the return address on the stack, and the six pushes. */
    method PushFrame(ret: int)
      modifies this`rsp, this`mem
      ensures rsp == old(rsp) - 56
      ensures FrameAt(mem, rsp, Saved(rbx, rbp, r12, r13, r14, r15, ret, old(rsp)))
      ensures forall a :: a in old(mem) && !(rsp <= a < old(rsp)) ==> a in mem && mem[a] == old(mem)[a]
    {
      Push(ret);
      Push(rbx);
      Push(rbp);
      Push(r12);
      Push(r13);
      Push(r14);
      Push(r15);
    }

    /** The six pops and the return. */
    method PopFrame(ghost s: Saved)
      requires FrameAt(mem, rsp, s)
      modifies this`rbx, this`rbp, this`r12, this`r13, this`r14, this`r15, this`rsp, this`rip
      ensures Regs() == s
    {
      r15 := Pop();
      r14 := Pop();
      r13 := Pop();
      r12 := Pop();
      rbp := Pop();
      rbx := Pop();
      rip := Pop();
    }

    /** `switch_to(slot, next)` called by the running task, which is to continue at `ret`. */
    method SwitchTo(slot: int, next: int, ret: int)
      requires Valid() && Legal(Now(), Switch(slot, next, ret))
      modifies this
      ensures Valid() && Now() == After(old(Now()), Switch(slot, next, ret))
    {
      hide FrameAt;
      ghost var m, s := mem, Regs().(rip := ret);
      PushFrame(ret);
      FrameSurvives(mem, rsp, s, slot, rsp);
      mem := mem[slot := rsp];
      SwitchTouchesOwnTask(m, mem, stacks, suspended, slot);
      TasksUntouched(m, mem, stacks, suspended);
      suspended := suspended[slot := s];
      assert SuspendedAt(mem, stacks, next, suspended[next]);
      rsp := mem[next];
      PopFrame(suspended[next]);
      suspended := suspended - {next};
      current := next;
    }

    /** Prepares a task that will start at `entry` on an empty stack. */
    method NewTask(slot: int, stack: Stack, entry: int)
      requires Valid() && Legal(Now(), Create(slot, stack, entry))
      modifies this`mem, this`suspended, this`stacks
      ensures Valid() && Now() == After(old(Now()), Create(slot, stack, entry))
    {
      var top := Top(stack);
      ghost var m, s := mem, Saved(0, 0, 0, 0, 0, 0, entry, top - 8);
      var sp := InitialFrame(top, entry);
      assert !stack.Has(slot) by { assert stacks[slot := stack][slot] == stack; }
      FrameSurvives(mem, sp, s, slot, sp);
      mem := mem[slot := sp];
      SwitchTouchesOwnTask(m, mem, stacks[slot := stack], suspended, slot);
      SuspendedElsewhere(m, stacks, suspended, slot, stack);
      stacks := stacks[slot := stack];
      TasksUntouched(m, mem, stacks, suspended);
      suspended := suspended[slot := s];
    }

    /** The eight words `new` stores below the top of a stack. */
    method InitialFrame(top: int, entry: int) returns (sp: int)
      modifies this`mem
      ensures sp == top - 64 && FrameAt(mem, sp, Saved(0, 0, 0, 0, 0, 0, entry, top - 8))
      ensures forall a :: a in old(mem) && !(sp <= a < top) ==> a in mem && mem[a] == old(mem)[a]
    {
      sp := top - 8;
      mem := mem[sp := 0];
      sp := sp - 8;
      mem := mem[sp := entry];
      sp := sp - 8;
      mem := mem[sp := 0]; // rbx
      sp := sp - 8;
      mem := mem[sp := 0]; // rbp
      sp := sp - 8;
      mem := mem[sp := 0]; // r12
      sp := sp - 8;
      mem := mem[sp := 0]; // r13
      sp := sp - 8;
      mem := mem[sp := 0]; // r14
      sp := sp - 8;
      mem := mem[sp := 0]; // r15
    }

    /** The running task computes: any registers, any writes outside the other tasks' memory. */
    method Run(s: Saved, writes: Memory)
      requires Valid() && Legal(Now(), Compute(s, writes))
      modifies this`rbx, this`rbp, this`r12, this`r13, this`r14, this`r15, this`rsp, this`rip, this`mem
      ensures Valid() && Now() == After(old(Now()), Compute(s, writes)) && mem == old(mem) + writes
    {
      hide Layout, AllSuspended, SameTask;
      ghost var m := mem;
      mem := mem + writes;
      WritesStayOff(m, writes, stacks, suspended, current);
      TasksUntouched(m, mem, stacks, suspended);
      rbx, rbp, r12, r13, r14, r15, rip, rsp := s.rbx, s.rbp, s.r12, s.r13, s.r14, s.r15, s.rip, s.rsp;
    }

    method Perform(e: Event)
      requires Valid() && Legal(Now(), e)
      modifies this
      ensures Valid() && Now() == After(old(Now()), e)
    {
      hide Valid, Legal, After;
      match e
      case Compute(regs, writes) => Run(regs, writes);
      case Create(slot, stack, entry) => NewTask(slot, stack, entry);
      case Switch(from, to, ret) => SwitchTo(from, to, ret);
    }

    /** Performs any legal sequence of events on registers and memory; what it does is a run of the
        machine without memory. */
    method Execute(events: seq<Event>) returns (ghost trace: seq<State>)
      requires Valid() && LegalRun(Now(), events)
      modifies this
      ensures Valid() && IsRun(trace, events) && trace[0] == old(Now()) && HaveStacks(trace[0]) && trace[|events|] == Now()
    {
      hide Valid, Legal, After;
      trace := [Now()];
      StacksNow();
      assert events[0..] == events;
      for i := 0 to |events|
        invariant Valid() && LegalRun(Now(), events[i..])
        invariant |trace| == i + 1 && trace[0] == old(Now()) && trace[i] == Now()
        invariant forall j :: 0 <= j < i ==> Step(trace[j], events[j], trace[j + 1])
      {
        assert events[i..][0] == events[i] && events[i..][1..] == events[i + 1..];
        Perform(events[i]);
        trace := trace + [Now()];
      }
    }
  }

  /** Storing the stack pointer in the slot leaves the frame alone. */
  lemma FrameSurvives(m: Memory, sp: int, s: Saved, slot: int, v: int)
    requires FrameAt(m, sp, s) && !(sp <= slot < sp + 56)
    ensures FrameAt(m[slot := v], sp, s)
  {}

  lemma SwitchTouchesOwnTask(m: Memory, m': Memory, stacks: map<int, Stack>, suspended: map<int, Saved>, cur: int)
    requires Layout(stacks) && cur in stacks && cur !in suspended && suspended.Keys <= stacks.Keys
    requires forall a :: a in m && a != cur && !stacks[cur].Has(a) ==> a in m' && m'[a] == m[a]
    ensures forall c :: c in suspended ==> SameTask(m, m', stacks, c)
  {
    forall c | c in suspended ensures SameTask(m, m', stacks, c) {
      assert StacksApart(stacks[c], stacks[cur]) && !stacks[c].Has(cur) && !stacks[cur].Has(c);
    }
  }

  lemma SuspendedElsewhere(m: Memory, stacks: map<int, Stack>, suspended: map<int, Saved>, slot: int, stack: Stack)
    requires AllSuspended(m, stacks, suspended) && slot !in stacks && suspended.Keys <= stacks.Keys
    ensures AllSuspended(m, stacks[slot := stack], suspended)
  {
    forall c | c in suspended ensures SuspendedAt(m, stacks[slot := stack], c, suspended[c]) {
      assert SuspendedAt(m, stacks, c, suspended[c]);
    }
  }

  lemma WritesStayOff(m: Memory, writes: Memory, stacks: map<int, Stack>, suspended: map<int, Saved>, cur: int)
    requires cur !in suspended && suspended.Keys <= stacks.Keys
    requires forall a :: a in writes ==> a !in stacks && forall c :: c in stacks && c != cur ==> !stacks[c].Has(a)
    ensures forall c :: c in suspended ==> SameTask(m, m + writes, stacks, c)
  {
    var m' := m + writes;
    forall c | c in suspended ensures SameTask(m, m', stacks, c) {
      forall a | a in m && (a == c || stacks[c].Has(a)) ensures a in m' && m'[a] == m[a] {
        assert a !in writes;
      }
    }
  }

  // ---------------------------------------------------------------------------------------
  // Runs
  // ---------------------------------------------------------------------------------------

  /** A suspended context is kept until its task is switched to. */
  lemma {:induction false} ContextIsKept(trace: seq<State>, events: seq<Event>, i: nat, j: nat, c: int)
    requires IsRun(trace, events) && i <= j < |trace|
    requires c in trace[i].suspended && c in trace[i].stacks && trace[i].current != c
    requires forall k :: i <= k < j ==> !SwitchesTo(events[k], c)
    ensures trace[j].current != c && c in trace[j].suspended && c in trace[j].stacks
    ensures trace[j].suspended[c] == trace[i].suspended[c]
    decreases j
  {
    if i < j {
      ContextIsKept(trace, events, i, j - 1, c);
      assert Step(trace[j - 1], events[j - 1], trace[j - 1 + 1]);
    }
  }

  predicate SwitchesTo(e: Event, c: int) { e.Switch? && e.to == c }

  /** A task that switches away gets back its own registers, stack pointer and return address the
      next time it is switched to, whatever ran in between. */
  lemma ResumedWithOwnContext(trace: seq<State>, events: seq<Event>, i: nat, j: nat)
    requires IsRun(trace, events) && i <= j < |events|
    requires events[i].Switch? && SwitchesTo(events[j], trace[i].current)
    requires forall k :: i <= k < j ==> !SwitchesTo(events[k], trace[i].current)
    ensures trace[j + 1].regs == trace[i].regs.(rip := events[i].ret)
  {
    var c := trace[i].current;
    assert Step(trace[i], events[i], trace[i + 1]);
    assert Step(trace[j], events[j], trace[j + 1]);
    if i < j {
      ContextIsKept(trace, events, i + 1, j, c);
    }
  }

  ghost predicate HaveStacks(s: State) { s.current in s.stacks && s.suspended.Keys <= s.stacks.Keys }

  lemma {:induction false} EveryTaskHasStack(trace: seq<State>, events: seq<Event>, n: nat)
    requires IsRun(trace, events) && HaveStacks(trace[0]) && n < |trace|
    ensures HaveStacks(trace[n])
    decreases n
  {
    hide Layout;
    if n > 0 {
      EveryTaskHasStack(trace, events, n - 1);
      assert Step(trace[n - 1], events[n - 1], trace[n - 1 + 1]);
    }
  }

  /** A fresh task starts at its entry with cleared registers and the stack pointer the calling
      convention asks for at a function entry: 8 modulo 16, the highest such with a word above it. */
  lemma FirstEntryIsAligned(trace: seq<State>, events: seq<Event>, i: nat, j: nat)
    requires IsRun(trace, events) && i < j < |events|
    requires events[i].Create? && SwitchesTo(events[j], events[i].slot)
    requires HaveStacks(trace[0])
    requires forall k :: i <= k < j ==> !SwitchesTo(events[k], events[i].slot)
    ensures trace[j + 1].current == events[i].slot
    ensures trace[j + 1].regs.rip == events[i].entry && trace[j + 1].regs.rsp % 16 == 8
    ensures events[i].stack.lo < trace[j + 1].regs.rsp && events[i].stack.hi - 24 < trace[j + 1].regs.rsp <= events[i].stack.hi - 8
    ensures var r := trace[j + 1].regs;
            r.rbx == 0 && r.rbp == 0 && r.r12 == 0 && r.r13 == 0 && r.r14 == 0 && r.r15 == 0
  {
    assert Step(trace[i], events[i], trace[i + 1]);
    assert Step(trace[j], events[j], trace[j + 1]);
    EveryTaskHasStack(trace, events, i);
    ContextIsKept(trace, events, i + 1, j, events[i].slot);
  }
}
