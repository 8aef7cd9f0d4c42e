/**
 The scan of a file's log after a crash (bbuild.c): it replays the log once for every window of
 pages, into an array that is shared by all files, and marks the blocks that it finds.
 */
module ScanWindow {
  import opened FileLog
  import opened LogChain

  /** Pages in one window. */
  const MAX_PGOFF: nat := 262144

  function BlockAt(r: Rec, p: nat): nat {
    if Covers(r, p) then BlockOf(r, p) else 0
  }

  function Shown(tree: map<nat, Rec>, p: nat): nat {
    if p in tree then BlockAt(tree[p], p) else 0
  }

  lemma ShownAssign(tree: map<nat, Rec>, r: Rec, p: nat)
    requires r.e.Write?
    ensures Shown(Assign(tree, r), p) == if Covers(r, p) then BlockAt(r, p) else Shown(tree, p)
  {
  }

  lemma ShownCut(tree: map<nat, Rec>, from: nat, to: nat, p: nat)
    ensures Shown(Cut(tree, from, to), p) == if from <= p < to then 0 else Shown(tree, p)
  {
  }

  /** The array shows the window of `tree` that begins at page `base`. */
  ghost predicate Shows(a: seq<nat>, base: nat, tree: map<nat, Rec>) {
    && |a| == MAX_PGOFF
    && forall q :: 0 <= q < MAX_PGOFF ==> a[q] == Shown(tree, base + q)
  }

  ghost predicate AllZero(a: seq<nat>) {
    |a| == MAX_PGOFF && forall q :: 0 <= q < MAX_PGOFF ==> a[q] == 0
  }

  lemma ZeroShowsNothing(a: seq<nat>, base: nat)
    requires AllZero(a)
    ensures Shows(a, base, map[])
  {
  }

  /** nova_set_ring_array: the part of a write that falls into the window. */
  method SetRingArray(a: array<nat>, r: Rec, base: nat, ghost tree: map<nat, Rec>)
    requires r.e.Write? && Shows(a[..], base, tree)
    modifies a
    ensures Shows(a[..], base, Assign(tree, r))
  {
    var start := if r.e.pgoff < base then base else r.e.pgoff;
    var end := r.e.pgoff + r.e.num;
    if end > base + MAX_PGOFF {
      end := base + MAX_PGOFF;
    }
    ghost var was := a[..];
    var p := start;
    while p < end
      invariant start <= p && (p <= end || p == start)
      invariant forall q :: 0 <= q < MAX_PGOFF ==>
                  a[q] == if start <= base + q < p then BlockAt(r, base + q) else was[q]
    {
      a[p - base] := r.e.block + p - r.e.pgoff;
      p := p + 1;
    }
    forall q | 0 <= q < MAX_PGOFF
      ensures a[q] == Shown(Assign(tree, r), base + q)
    {
      ShownAssign(tree, r, base + q);
      assert was[q] == Shown(tree, base + q);
    }
  }

  /** nova_ring_setattr_entry: what a smaller size cuts off in the window. */
  method RingSetattr(a: array<nat>, old_size: nat, size: nat, base: nat, ghost tree: map<nat, Rec>)
    requires Shows(a[..], base, tree)
    modifies a
    ensures Shows(a[..], base, if old_size > size then Cut(tree, PagesOf(size), PagesOf(old_size)) else tree)
  {
    if old_size > size {
      var first := (size + PAGE - 1) / PAGE;
      var last := (old_size - 1) / PAGE;
      LastPage(old_size);
      if first < base {
        first := base;
      }
      if last > base + MAX_PGOFF - 1 {
        last := base + MAX_PGOFF - 1;
      }
      ghost var was := a[..];
      var p := first;
      while p <= last
        invariant first <= p && (p <= last + 1 || p == first)
        invariant forall q :: 0 <= q < MAX_PGOFF ==> a[q] == if first <= base + q < p then 0 else was[q]
      {
        a[p - base] := 0;
        p := p + 1;
      }
      forall q | 0 <= q < MAX_PGOFF
        ensures a[q] == Shown(Cut(tree, PagesOf(size), PagesOf(old_size)), base + q)
      {
        ShownCut(tree, PagesOf(size), PagesOf(old_size), base + q);
        assert was[q] == Shown(tree, base + q);
      }
    }
  }

  lemma LastPage(size: nat)
    requires size > 0
    ensures PagesOf(size) == (size - 1) / PAGE + 1
  {
  }

  /** Block `b` holds a page of the file between `lo` and `hi`. */
  ghost predicate Holds(tree: map<nat, Rec>, lo: nat, hi: nat, b: nat) {
    exists p :: p in tree && lo <= p < hi && BlockAt(tree[p], p) == b
  }

  /** nova_set_file_bm: marks the blocks that the array shows, and clears it. */
  method SetFileBm(a: array<nat>, bm: set<nat>, base: nat, lastBlocknr: nat, ghost tree: map<nat, Rec>)
    returns (now: set<nat>)
    requires Shows(a[..], base, tree) && base <= lastBlocknr
    requires forall p :: p in tree ==> p <= lastBlocknr && BlockAt(tree[p], p) > 0
    modifies a
    ensures AllZero(a[..])
    ensures forall b :: b in now <==> b in bm || Holds(tree, base, base + MAX_PGOFF, b)
  {
    now := bm;
    ghost var was := a[..];
    var last := if lastBlocknr >= base + MAX_PGOFF then MAX_PGOFF - 1 else lastBlocknr - base;
    for q := 0 to last + 1
      invariant forall i :: 0 <= i < MAX_PGOFF ==> a[i] == if i < q then 0 else was[i]
      invariant forall b :: b in now <==> b in bm || Holds(tree, base, base + q, b)
    {
      if a[q] != 0 {
        now := now + {a[q]};
        a[q] := 0;
      }
      assert was[q] == Shown(tree, base + q);
      HoldsOneMore(tree, base, base + q, was[q]);
    }
    HoldsNoMore(tree, base, base + last + 1, base + MAX_PGOFF);
    forall q | 0 <= q < MAX_PGOFF
      ensures a[q] == 0
    {
      assert was[q] == Shown(tree, base + q);
    }
  }

  lemma HoldsNoMore(tree: map<nat, Rec>, lo: nat, hi: nat, end: nat)
    requires hi <= end && forall p :: p in tree ==> p < hi || p >= end
    ensures forall b :: Holds(tree, lo, hi, b) <==> Holds(tree, lo, end, b)
  {
  }

  lemma HoldsOneMore(tree: map<nat, Rec>, lo: nat, hi: nat, v: nat)
    requires lo <= hi && v == Shown(tree, hi)
    requires forall p :: p in tree ==> BlockAt(tree[p], p) > 0
    ensures forall b :: Holds(tree, lo, hi + 1, b) <==> Holds(tree, lo, hi, b) || (v != 0 && b == v)
  {
    forall b
      ensures Holds(tree, lo, hi + 1, b) <==> Holds(tree, lo, hi, b) || (v != 0 && b == v)
    {
      if Holds(tree, lo, hi + 1, b) {
        var p :| p in tree && lo <= p < hi + 1 && BlockAt(tree[p], p) == b;
        assert p < hi ==> Holds(tree, lo, hi, b);
      }
      if Holds(tree, lo, hi, b) {
        var p :| p in tree && lo <= p < hi && BlockAt(tree[p], p) == b;
        assert p in tree && lo <= p < hi + 1 && BlockAt(tree[p], p) == b;
      }
      if v != 0 && b == v {
        assert hi in tree && lo <= hi < hi + 1 && BlockAt(tree[hi], hi) == b;
      }
    }
  }

  /** A write that does not reach into the window does not change what the array shows. */
  lemma OutsideWindow(a: seq<nat>, r: Rec, base: nat, tree: map<nat, Rec>)
    requires r.e.Write? && Shows(a, base, tree)
    requires r.e.pgoff >= base + MAX_PGOFF || r.e.pgoff + r.e.num <= base
    ensures Shows(a, base, Assign(tree, r))
  {
    forall q | 0 <= q < MAX_PGOFF
      ensures a[q] == Shown(Assign(tree, r), base + q)
    {
      ShownAssign(tree, r, base + q);
    }
  }

  /** One pass over the log. `dead` are the write records whose counter is full. */
  method ReplayWindow(log: seq<Rec>, dead: set<nat>, a: array<nat>, base: nat) returns (size: nat)
    requires AllZero(a[..])
    modifies a
    ensures Shows(a[..], base, Replay(EMPTY, log, dead).tree) && size == Replay(EMPTY, log, dead).size
  {
    size := 0;
    ZeroShowsNothing(a[..], base);
    ghost var v := EMPTY;
    for i := 0 to |log|
      invariant v == Replay(EMPTY, log[..i], dead) && size == v.size
      invariant Shows(a[..], base, v.tree)
    {
      var r := log[i];
      assert log[..i + 1] == log[..i] + [r];
      ReplayAppend(EMPTY, log[..i], r, dead);
      match r.e {
        case SetAttr(_, newSize, _) =>
          RingSetattr(a, size, newSize, base, v.tree);
          size := newSize;
        case LinkChange(_) =>
        case Write(pgoff, num, _, newSize) =>
          size := newSize;
          if r.addr !in dead {
            if pgoff < base + MAX_PGOFF && pgoff + num > base {
              SetRingArray(a, r, base, v.tree);
            } else {
              OutsideWindow(a[..], r, base, v.tree);
            }
          }
      }
      v := Apply(v, r, r.addr in dead);
    }
    assert log[..|log|] == log;
  }

  ghost predicate InFile(tree: map<nat, Rec>, b: nat) {
    exists p :: p in tree && BlockAt(tree[p], p) == b
  }

  /** What a rebuild of the index would map: the same as every pass replays. */
  lemma PassesAgree(log: seq<Rec>, dead: set<nat>)
    requires WellSized(log) && Collectable(log, {}, dead)
    ensures Replay(EMPTY, log, dead) == Meaning(log)
    ensures forall p :: p in Meaning(log).tree ==> p < PagesOf(Meaning(log).size)
  {
    FilterNothing(log);
    CollectionKeepsView(EMPTY, log, {}, dead);
    forall p | p in Meaning(log).tree
      ensures p < PagesOf(Meaning(log).size)
    {
      KeysBelowSize(log, p);
    }
  }

  lemma MappedBlocks(log: seq<Rec>, p: nat)
    requires p in Meaning(log).tree && forall i :: 0 <= i < |log| && log[i].e.Write? ==> log[i].e.block > 0
    ensures BlockAt(Meaning(log).tree[p], p) > 0
  {
    OwnersAreLogged(log, p);
  }

  /** The walk along the links that marks the pages of the log, up to the tail page and beyond it to
      the last page that is linked. */
  method MarkLogPages(head: nat, next: map<nat, nat>, bm: set<nat>, ghost chain: seq<nat>) returns (now: set<nat>)
    requires IsChain(head, next, chain)
    ensures forall b :: b in now <==> b in bm || b in chain
  {
    forall k | 0 <= k < |chain| - 1
      ensures next[chain[k]] != 0
    {
      assert chain[k + 1] in chain;
    }
    now := bm + {head};
    var curr := head;
    ghost var i := 0;
    while next[curr] != 0
      invariant i < |chain| && curr == chain[i]
      invariant forall b :: b in now <==> b in bm || b in chain[..i + 1]
      decreases |chain| - i
    {
      curr, i := next[curr], i + 1;
      assert chain[..i + 1] == chain[..i] + [curr];
      now := now + {curr};
    }
    assert chain[..i + 1] == chain;
  }

  /** nova_traverse_file_inode_log: marks exactly the pages of the log and the blocks that a rebuild
      of the index would map, however long the file, and leaves the array clear for the next. */
  method TraverseFileInodeLog(log: seq<Rec>, dead: set<nat>, head: nat, next: map<nat, nat>, a: array<nat>,
                              bm: set<nat>, ghost chain: seq<nat>)
    returns (now: set<nat>)
    requires AllZero(a[..]) && if head == 0 then log == [] && chain == [] else IsChain(head, next, chain)
    requires WellSized(log) && Collectable(log, {}, dead)
    requires forall i :: 0 <= i < |log| && log[i].e.Write? ==> log[i].e.block > 0
    modifies a
    ensures AllZero(a[..])
    ensures forall b :: b in now <==> b in bm || b in chain || InFile(Meaning(log).tree, b)
  {
    if head == 0 {
      return bm;
    }
    PassesAgree(log, dead);
    ghost var tree := Meaning(log).tree;
    forall p | p in tree
      ensures BlockAt(tree[p], p) > 0
    {
      MappedBlocks(log, p);
    }
    now := MarkLogPages(head, next, bm, chain);
    var base := 0;
    while true
      invariant AllZero(a[..]) && (base > 0 ==> base < PagesOf(Meaning(log).size))
      invariant forall b :: b in now <==> b in bm || b in chain || Holds(tree, 0, base, b)
      decreases Meaning(log).size - base
    {
      var size := ReplayWindow(log, dead, a, base);
      if size == 0 {
        return;
      }
      var last := (size - 1) / PAGE;
      LastPage(size);
      now := SetFileBm(a, now, base, last, tree);
      HoldsSplit(tree, base, base + MAX_PGOFF);
      if last < base + MAX_PGOFF {
        break;
      }
      base := base + MAX_PGOFF;
    }
  }

  lemma HoldsSplit(tree: map<nat, Rec>, mid: nat, hi: nat)
    requires mid <= hi
    ensures forall b :: Holds(tree, 0, hi, b) <==> Holds(tree, 0, mid, b) || Holds(tree, mid, hi, b)
  {
  }
}
