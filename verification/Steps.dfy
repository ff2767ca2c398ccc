/** The smallest changes the frame allocator and the mapper make, each a function of the state
    before it, and what sequences of them reach. */
module Steps {
  import opened Addr
  import opened Entry
  import opened PageTables
  import opened PhysMem

  /** What an operation on one address space can see and change. */
  datatype View = View(pages: Memory, stack: seq<Frame>, out: set<Frame>, space: Space)

  /** A view together with the frames the running operation holds. */
  datatype Local = Local(v: View, held: set<Frame>)

  datatype Prim =
    | PopFree
    | PushFree(f: Frame, link: Word)
    | AddTable(n: Node)
    | SetPage(n: Node, l: Leaf)
    | ClearPage(n: Node)
    | SetFlags(n: Node, flags: PageFlags)

  /** The entry of node `n` is a word of an existing table. */
  ghost predicate HasEntry(v: View, n: Node)
  {
    |v.pages| == FRAME_COUNT && n.Child? && n.parent in v.space.tables && n.index < WORDS_PER_PAGE
  }

  /** When a change can be made; a condition on the state before it only. */
  ghost predicate Legal(a: Local, p: Prim)
  {
    && |a.v.pages| == FRAME_COUNT
    && match p
       case PopFree => a.v.stack != []
       case PushFree(f, _) => f in a.held
       case AddTable(n) => HasEntry(a.v, n) && Depth(n) <= 3 && n !in a.v.space.tables && a.v.stack != []
       case SetPage(n, l) => HasEntry(a.v, n) && Depth(n) == 4 && n !in a.v.space.leaves && l.frame in a.held
       case ClearPage(n) => HasEntry(a.v, n) && n in a.v.space.leaves
       case SetFlags(n, _) => HasEntry(a.v, n) && n in a.v.space.leaves
  }

  ghost function TableWord(f: Frame): Word
  {
    TableEntry(f);
    Pack(f, TABLE_FLAGS)
  }

  ghost function LeafWord(l: Leaf): Word
  {
    LeafEntry(l.frame, l.flags);
    Pack(l.frame, EntryFlags(l.flags))
  }

  /** Memory with the entry of node `n` set to `w`. */
  ghost function Put(m: Memory, sp: Space, n: Node, w: Word): Memory
    requires |m| == FRAME_COUNT && n.Child? && n.parent in sp.tables && n.index < WORDS_PER_PAGE
  {
    Write(m, sp.tables[n.parent], n.index, w)
  }

  ghost function After(a: Local, p: Prim): Local
    requires Legal(a, p)
  {
    var View(m, stack, out, sp) := a.v;
    match p
    case PopFree => Local(View(m, stack[1..], out + {stack[0]}, sp), a.held + {stack[0]})
    case PushFree(f, link) => Local(View(Write(m, f, 0, link), [f] + stack, out - {f}, sp), a.held - {f})
    case AddTable(n) =>
      var f := stack[0];
      Local(View(Put(m[f := ZeroPage()], sp, n, TableWord(f)), stack[1..], out + {f}, WithTable(sp, n, f)), a.held)
    case SetPage(n, l) => Local(View(Put(m, sp, n, LeafWord(l)), stack, out, WithLeaf(sp, n, l)), a.held - {l.frame})
    case ClearPage(n) => Local(View(Put(m, sp, n, 0), stack, out, WithoutLeaf(sp, n)), a.held + {sp.leaves[n].frame})
    case SetFlags(n, flags) =>
      var l := Leaf(sp.leaves[n].frame, flags);
      Local(View(Put(m, sp, n, LeafWord(l)), stack, out, WithLeaf(sp, n, l)), a.held)
  }

  // ---------------------------------------------------------------------------------------
  // Sequences
  // ---------------------------------------------------------------------------------------

  ghost predicate Leads(a: Local, ps: seq<Prim>, b: Local)
    decreases |ps|
  {
    if ps == [] then a == b else Legal(a, ps[0]) && Leads(After(a, ps[0]), ps[1..], b)
  }

  ghost predicate Reach(a: Local, b: Local) { exists ps :: Leads(a, ps, b) }

  lemma {:induction false} LeadsConcat(a: Local, ps: seq<Prim>, b: Local, qs: seq<Prim>, c: Local)
    requires Leads(a, ps, b) && Leads(b, qs, c)
    ensures Leads(a, ps + qs, c)
    decreases |ps|
  {
    hide Legal, After;
    if ps == [] {
      assert ps + qs == qs;
    } else {
      LeadsConcat(After(a, ps[0]), ps[1..], b, qs, c);
      assert (ps + qs)[0] == ps[0] && (ps + qs)[1..] == ps[1..] + qs;
    }
  }

  lemma ReachNothing(a: Local)
    ensures Reach(a, a)
  {
    assert Leads(a, [], a);
  }

  lemma ReachTrans(a: Local, b: Local, c: Local)
    requires Reach(a, b) && Reach(b, c)
    ensures Reach(a, c)
  {
    hide Leads;
    var ps :| Leads(a, ps, b);
    var qs :| Leads(b, qs, c);
    LeadsConcat(a, ps, b, qs, c);
  }

  lemma ReachOne(a: Local, p: Prim)
    requires Legal(a, p)
    ensures Reach(a, After(a, p))
  {
    hide Legal, After;
    var b := After(a, p);
    assert Leads(b, [], b);
    assert Leads(a, [p], b);
  }

  /** An operation that holds no frame before or after. */
  ghost predicate Worked(v: View, v': View) { Reach(Local(v, {}), Local(v', {})) }

  lemma WorkedNothing(v: View)
    ensures Worked(v, v)
  {
    ReachNothing(Local(v, {}));
  }

  lemma WorkedTrans(u: View, v: View, w: View)
    requires Worked(u, v) && Worked(v, w)
    ensures Worked(u, w)
  {
    hide Reach;
    ReachTrans(Local(u, {}), Local(v, {}), Local(w, {}));
  }

  /** Tables are added, whatever the operation holds. */
  ghost predicate Builds(v: View, v': View) { forall held :: Reach(Local(v, held), Local(v', held)) }

  lemma BuildsNothing(v: View)
    ensures Builds(v, v)
  {
    hide Reach;
    forall held ensures Reach(Local(v, held), Local(v, held)) { ReachNothing(Local(v, held)); }
  }

  lemma BuildsTrans(u: View, v: View, w: View)
    requires Builds(u, v) && Builds(v, w)
    ensures Builds(u, w)
  {
    hide Reach;
    forall held ensures Reach(Local(u, held), Local(w, held)) {
      ReachTrans(Local(u, held), Local(v, held), Local(w, held));
    }
  }

  lemma BuildsTable(v: View, n: Node, v': View)
    requires Legal(Local(v, {}), AddTable(n)) && v' == After(Local(v, {}), AddTable(n)).v
    ensures Builds(v, v')
  {
    hide Reach;
    forall held ensures Reach(Local(v, held), Local(v', held)) {
      ReachOne(Local(v, held), AddTable(n));
    }
  }
}
