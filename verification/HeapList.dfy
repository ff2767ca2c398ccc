/** The heap's free list as it lies in memory: every free block starts with a 16-byte header
    holding its size and the address of the next block (0 at the end). */
module HeapList {
  import opened FreeRuns

  const HEADER := 16

  /** 8-byte words by address. */
  type Memory = map<int, int>

  predicate HeaderAt(w: Memory, r: Run, next: int)
  {
    r.base in w && w[r.base] == r.size && r.base + 8 in w && w[r.base + 8] == next
  }

  function WriteHeader(w: Memory, base: int, size: int, next: int): Memory
  {
    w[base := size][base + 8 := next]
  }

  /** The address of block `i`, or `last` past the end. */
  function PtrTo(bs: seq<Run>, i: nat, last: int): int
  {
    if i < |bs| then bs[i].base else last
  }

  /** Block `i` of `bs` has its header in place. */
  predicate NodeAt(w: Memory, bs: seq<Run>, i: nat, last: int)
    requires i < |bs|
  {
    HeaderAt(w, bs[i], PtrTo(bs, i + 1, last))
  }

  /** The headers of `bs` are in place and the last one points at `last`. */
  ghost predicate Chain(w: Memory, bs: seq<Run>, last: int)
  {
    forall i :: 0 <= i < |bs| ==> NodeAt(w, bs, i, last)
  }

  /** Following the list from `head` visits `bs` and then arrives at `last`. */
  ghost predicate Linked(head: int, w: Memory, bs: seq<Run>, last: int)
  {
    head == PtrTo(bs, 0, last) && Chain(w, bs, last)
  }

  /** Block headers do not overlap. */
  ghost predicate Spaced(bs: seq<Run>)
  {
    forall i, j :: 0 <= i < j < |bs| ==> bs[i].base + HEADER <= bs[j].base
  }

  /** The `prev_next` pointer: the `head` field or the `next` field of a block. */
  datatype Link = Head | Next(block: int)

  function LinkAfter(bs: seq<Run>): Link
  {
    if bs == [] then Head else Next(bs[|bs| - 1].base)
  }

  function ReadLink(l: Link, head: int, w: Memory): int
    requires l.Next? ==> l.block + 8 in w
  {
    match l
    case Head => head
    case Next(b) => w[b + 8]
  }

  function LinkedHead(l: Link, head: int, v: int): int
  {
    if l.Head? then v else head
  }

  function LinkedWords(l: Link, w: Memory, v: int): Memory
  {
    match l
    case Head => w
    case Next(b) => w[b + 8 := v]
  }

  lemma ChainConcat(w: Memory, a: seq<Run>, b: seq<Run>, last: int)
    ensures Chain(w, a + b, last) <==> Chain(w, a, PtrTo(b, 0, last)) && Chain(w, b, last)
  {
    var t := a + b;
    assert forall i :: 0 <= i < |b| ==> t[|a| + i] == b[i];
    if Chain(w, t, last) {
      forall i | 0 <= i < |a| ensures NodeAt(w, a, i, PtrTo(b, 0, last)) {
        assert NodeAt(w, t, i, last);
      }
      forall i | 0 <= i < |b| ensures NodeAt(w, b, i, last) {
        assert NodeAt(w, t, |a| + i, last);
      }
    }
    if Chain(w, a, PtrTo(b, 0, last)) && Chain(w, b, last) {
      forall i | 0 <= i < |t| ensures NodeAt(w, t, i, last) {
        if i < |a| {
          assert NodeAt(w, a, i, PtrTo(b, 0, last));
        } else {
          assert NodeAt(w, b, i - |a|, last);
        }
      }
    }
  }

  lemma LinkedConcat(head: int, w: Memory, a: seq<Run>, b: seq<Run>, last: int)
    ensures Linked(head, w, a + b, last) <==> Linked(head, w, a, PtrTo(b, 0, last)) && Chain(w, b, last)
  {
    ChainConcat(w, a, b, last);
  }

  /** No block of `bs` has a header word at `addr`. */
  ghost predicate ClearOf(bs: seq<Run>, addr: int)
  {
    forall i :: 0 <= i < |bs| ==> bs[i].base != addr && bs[i].base + 8 != addr
  }

  lemma WriteKeepsChain(w: Memory, bs: seq<Run>, last: int, addr: int, v: int)
    requires Chain(w, bs, last) && ClearOf(bs, addr)
    ensures Chain(w[addr := v], bs, last)
  {
    var w' := w[addr := v];
    forall i | 0 <= i < |bs| ensures NodeAt(w', bs, i, last) {
      assert NodeAt(w, bs, i, last);
    }
  }

  lemma HeaderKeepsChain(w: Memory, bs: seq<Run>, last: int, base: int, size: int, next: int)
    requires Chain(w, bs, last) && ClearOf(bs, base) && ClearOf(bs, base + 8)
    ensures Chain(WriteHeader(w, base, size, next), bs, last)
  {
    WriteKeepsChain(w, bs, last, base, size);
    WriteKeepsChain(w[base := size], bs, last, base + 8, next);
  }

  /** Storing through the link at the end of `a` redirects it. */
  lemma Relink(head: int, w: Memory, a: seq<Run>, was: int, v: int)
    requires Linked(head, w, a, was) && Spaced(a)
    ensures Linked(LinkedHead(LinkAfter(a), head, v), LinkedWords(LinkAfter(a), w, v), a, v)
  {
    if a != [] {
      var n := |a| - 1;
      var w' := w[a[n].base + 8 := v];
      forall i | 0 <= i < |a| ensures NodeAt(w', a, i, v) {
        assert NodeAt(w, a, i, was);
        if i < n { assert a[i].base + HEADER <= a[n].base; }
      }
    }
  }

  lemma RelinkKeepsChain(w: Memory, a: seq<Run>, b: seq<Run>, last: int, v: int)
    requires Chain(w, b, last) && Spaced(a + b)
    ensures Chain(LinkedWords(LinkAfter(a), w, v), b, last)
  {
    if a != [] {
      var t, n := a + b, |a| - 1;
      forall i | 0 <= i < |b| ensures b[i].base != a[n].base + 8 && b[i].base + 8 != a[n].base + 8 {
        assert t[n].base + HEADER <= t[|a| + i].base;
      }
      WriteKeepsChain(w, b, last, a[n].base + 8, v);
    }
  }

  /** Two stretches of a spaced list keep clear of each other's headers. */
  lemma SpacedIsClear(a: seq<Run>, r: Run, b: seq<Run>)
    requires Spaced(a + [r] + b)
    ensures ClearOf(a, r.base) && ClearOf(a, r.base + 8)
    ensures ClearOf(b, r.base) && ClearOf(b, r.base + 8)
    ensures Spaced(a) && Spaced(a + [r]) && Spaced(a + b)
  {
    var t := a + [r] + b;
    assert forall i :: 0 <= i < |a| ==> t[i] == a[i];
    assert t[|a|] == r;
    assert forall i :: 0 <= i < |b| ==> t[|a| + 1 + i] == b[i];
    var u := a + b;
    forall i, j | 0 <= i < j < |u| ensures u[i].base + HEADER <= u[j].base {
      var i', j' := if i < |a| then i else i + 1, if j < |a| then j else j + 1;
      assert t[i'].base + HEADER <= t[j'].base;
    }
  }

  /** Writing a header between two stretches starts the second one with that block. */
  lemma WriteBetween(w: Memory, a: seq<Run>, last: int, r: Run, b: seq<Run>)
    requires Chain(w, a, last) && Chain(w, b, 0) && Spaced(a + [r] + b)
    ensures var w1 := WriteHeader(w, r.base, r.size, PtrTo(b, 0, 0));
            Chain(w1, a, last) && Chain(w1, [r] + b, 0)
  {
    var next := PtrTo(b, 0, 0);
    SpacedIsClear(a, r, b);
    var w1 := WriteHeader(w, r.base, r.size, next);
    HeaderKeepsChain(w, a, last, r.base, r.size, next);
    HeaderKeepsChain(w, b, 0, r.base, r.size, next);
    assert NodeAt(w1, [r], 0, next);
    ChainConcat(w1, [r], b, 0);
  }

  /** Writing a header and linking it in puts the block between the two stretches. */
  lemma AppendBlock(head: int, w: Memory, a: seq<Run>, last: int, r: Run, b: seq<Run>)
    requires Linked(head, w, a, last) && Chain(w, b, 0)
    requires Spaced(a + [r] + b)
    ensures var w1 := WriteHeader(w, r.base, r.size, PtrTo(b, 0, 0));
            var l := LinkAfter(a);
            Linked(LinkedHead(l, head, r.base), LinkedWords(l, w1, r.base), a + [r] + b, 0)
  {
    var w1 := WriteHeader(w, r.base, r.size, PtrTo(b, 0, 0));
    var l := LinkAfter(a);
    WriteBetween(w, a, last, r, b);
    SpacedIsClear(a, r, b);
    Relink(head, w1, a, last, r.base);
    assert a + ([r] + b) == a + [r] + b;
    RelinkKeepsChain(w1, a, [r] + b, 0, r.base);
    JoinList(LinkedHead(l, head, r.base), LinkedWords(l, w1, r.base), a, [r] + b);
  }

  /** Overwriting the header of the block after `a` makes it the last one before `b`. */
  lemma ReplaceBlock(head: int, w: Memory, a: seq<Run>, m: Run, b: seq<Run>)
    requires Linked(head, w, a, m.base) && Chain(w, b, 0)
    requires Spaced(a + [m] + b)
    ensures Linked(head, WriteHeader(w, m.base, m.size, PtrTo(b, 0, 0)), a + [m] + b, 0)
  {
    var w1 := WriteHeader(w, m.base, m.size, PtrTo(b, 0, 0));
    WriteBetween(w, a, m.base, m, b);
    assert a + ([m] + b) == a + [m] + b;
    JoinList(head, w1, a, [m] + b);
  }

  /** The list cut before block `k`. */
  lemma SplitAt(head: int, w: Memory, bs: seq<Run>, k: nat)
    requires Linked(head, w, bs, 0) && k <= |bs|
    ensures Linked(head, w, bs[..k], PtrTo(bs, k, 0)) && Chain(w, bs[k..], 0)
  {
    assert bs[..k] + bs[k..] == bs;
    LinkedConcat(head, w, bs[..k], bs[k..], 0);
  }

  lemma JoinList(head: int, w: Memory, a: seq<Run>, b: seq<Run>)
    requires Linked(head, w, a, PtrTo(b, 0, 0)) && Chain(w, b, 0)
    ensures Linked(head, w, a + b, 0)
  {
    LinkedConcat(head, w, a, b, 0);
  }

  /** Storing the successor through the link before block `k` unlinks it. */
  lemma UnlinkBlock(head: int, w: Memory, bs: seq<Run>, k: nat)
    requires Linked(head, w, bs, 0) && Spaced(bs) && k < |bs|
    ensures var next := PtrTo(bs, k + 1, 0);
            var l := LinkAfter(bs[..k]);
            && Linked(LinkedHead(l, head, next), LinkedWords(l, w, next), bs[..k], next)
            && Chain(LinkedWords(l, w, next), bs[k + 1..], 0)
  {
    var next := PtrTo(bs, k + 1, 0);
    SplitAt(head, w, bs, k);
    SplitAt(head, w, bs, k + 1);
    SpacedParts(bs, k);
    Relink(head, w, bs[..k], bs[k].base, next);
    RelinkKeepsChain(w, bs[..k], bs[k + 1..], 0, next);
  }

  lemma SpacedParts(bs: seq<Run>, k: nat)
    requires Spaced(bs) && k < |bs|
    ensures Spaced(bs[..k]) && Spaced(bs[..k] + bs[k + 1..])
  {
    assert bs == bs[..k] + [bs[k]] + bs[k + 1..];
    SpacedIsClear(bs[..k], bs[k], bs[k + 1..]);
  }

  /** What a traversal reads at its `k`-th step. */
  lemma ReadAt(head: int, w: Memory, bs: seq<Run>, k: nat)
    requires Linked(head, w, bs, 0) && k <= |bs|
    ensures var l := LinkAfter(bs[..k]);
            && (l.Next? ==> l.block + 8 in w)
            && ReadLink(l, head, w) == PtrTo(bs, k, 0)
    ensures k < |bs| ==> HeaderAt(w, bs[k], PtrTo(bs, k + 1, 0))
  {
    if k > 0 {
      assert NodeAt(w, bs, k - 1, 0);
      assert bs[..k][k - 1] == bs[k - 1];
    }
    if k < |bs| { assert NodeAt(w, bs, k, 0); }
  }

  /** Rewriting the header of block `k` to end at block `j` drops the blocks in between. */
  lemma Splice(head: int, w: Memory, t: seq<Run>, k: nat, j: nat, m: Run)
    requires Linked(head, w, t, 0) && k < j <= |t| && t[k].base == m.base && Spaced(t)
    ensures Linked(head, WriteHeader(w, m.base, m.size, PtrTo(t, j, 0)), t[..k] + [m] + t[j..], 0)
  {
    SplitAt(head, w, t, k);
    SplitAt(head, w, t, j);
    SpacedSplice(t, k, j, m);
    ReplaceBlock(head, w, t[..k], m, t[j..]);
  }

  lemma SpacedSplice(t: seq<Run>, k: nat, j: nat, m: Run)
    requires Spaced(t) && k < j <= |t| && t[k].base == m.base
    ensures Spaced(t[..k] + [m] + t[j..])
  {
    var u := t[..k] + [m] + t[j..];
    forall a, b | 0 <= a < b < |u| ensures u[a].base + HEADER <= u[b].base {
      var a', b' := if a <= k then a else a - k - 1 + j, if b <= k then b else b - k - 1 + j;
      assert t[a'].base + HEADER <= t[b'].base;
    }
  }
}
