/**
 The bookkeeping around the page index: which blocks are live or free, how many pages of each
 write record are still current, and how taking over, dropping and moving records keeps all of
 that in step.
 */
module FileBooks {
  import opened FileLog
  import opened FileData

  // ---------------------------------------------------------------------------------------
  // Live blocks
  // ---------------------------------------------------------------------------------------

  ghost predicate Backs(tree: map<nat, Rec>, p: nat, b: nat) {
    p in tree && Covers(tree[p], p) && BlockOf(tree[p], p) == b
  }

  ghost predicate Live(tree: map<nat, Rec>, b: nat) {
    exists p :: Backs(tree, p, b)
  }

  /** Pages `p` and `q` have blocks of their own. */
  ghost predicate Apart(tree: map<nat, Rec>, p: nat, q: nat) {
    p in tree && q in tree && p != q && Covers(tree[p], p) && Covers(tree[q], q) ==>
      BlockOf(tree[p], p) != BlockOf(tree[q], q)
  }

  /** Every index entry names a block of the device that is not free. */
  ghost predicate Placed(mem: seq<byte>, tree: map<nat, Rec>, free: set<nat>) {
    Mapped(mem, tree) && forall p :: p in tree ==> BlockOf(tree[p], p) !in free
  }

  // ---------------------------------------------------------------------------------------
  // Live-page counts
  // ---------------------------------------------------------------------------------------

  ghost function Owned(tree: map<nat, Rec>, r: Rec): set<nat> {
    set p | p in tree && tree[p] == r
  }

  /** Pages of a write record that are accounted for: counted invalid or still in the index. */
  ghost function Accounted(tree: map<nat, Rec>, invalid: map<nat, nat>, r: Rec): nat
    requires r.addr in invalid
  {
    invalid[r.addr] + |Owned(tree, r)|
  }

  ghost predicate HasCounter(log: seq<Rec>, invalid: map<nat, nat>) {
    forall i :: 0 <= i < |log| ==> log[i].addr in invalid
  }

  /** No record has more pages accounted for than it has pages, which stays true even when
      counter updates are lost in a crash; with `exact`, none has fewer either. */
  ghost predicate Counted(log: seq<Rec>, tree: map<nat, Rec>, invalid: map<nat, nat>, exact: bool) {
    && HasCounter(log, invalid)
    && forall i :: 0 <= i < |log| && log[i].e.Write? ==>
         && Accounted(tree, invalid, log[i]) <= log[i].e.num
         && (exact ==> Accounted(tree, invalid, log[i]) == log[i].e.num)
  }

  lemma SwapOwner(tree: map<nat, Rec>, p: nat, r: Rec, o: Rec)
    requires p in tree ==> tree[p] != r
    ensures o == r ==> |Owned(tree[p := r], o)| == |Owned(tree, o)| + 1
    ensures o != r && p in tree && tree[p] == o ==> |Owned(tree[p := r], o)| == |Owned(tree, o)| - 1
    ensures o != r && (p !in tree || tree[p] != o) ==> |Owned(tree[p := r], o)| == |Owned(tree, o)|
  {
    var t := tree[p := r];
    if o == r {
      assert Owned(t, o) == Owned(tree, o) + {p};
    } else {
      assert Owned(t, o) == Owned(tree, o) - {p};
    }
  }

  lemma LoseOwner(tree: map<nat, Rec>, p: nat, o: Rec)
    requires p in tree
    ensures |Owned(tree - {p}, o)| == |Owned(tree, o)| - (if tree[p] == o then 1 else 0)
  {
    assert Owned(tree - {p}, o) == Owned(tree, o) - {p};
  }

  /** A counter that has reached num_pages proves the record dead, exact counts or not. */
  lemma FullCounterIsDead(log: seq<Rec>, tree: map<nat, Rec>, invalid: map<nat, nat>, exact: bool, i: nat)
    requires Counted(log, tree, invalid, exact)
    requires i < |log| && log[i].e.Write? && invalid[log[i].addr] >= log[i].e.num
    ensures !Owns(tree, log[i])
  {
    assert Accounted(tree, invalid, log[i]) <= log[i].e.num;
    assert Owned(tree, log[i]) == {};
    forall p | p in tree
      ensures tree[p] != log[i]
    {
      assert p !in Owned(tree, log[i]);
    }
  }

  /** Every page of a write record is current exactly when the index has as many of them. */
  lemma WholeIffOwned(tree: map<nat, Rec>, r: Rec)
    requires r.e.Write? && forall q :: q in tree ==> Covers(tree[q], q)
    ensures (forall p :: Covers(r, p) ==> p in tree && tree[p] == r) <==> |Owned(tree, r)| == r.e.num
  {
    var whole := set q | r.e.pgoff <= q < r.e.pgoff + r.e.num && Covers(r, q);
    IntervalSize(r.e.pgoff, r.e.num, whole);
    SubsetSize(Owned(tree, r), whole);
    if |Owned(tree, r)| == r.e.num {
      forall p | Covers(r, p)
        ensures p in tree && tree[p] == r
      {
        assert p in whole;
      }
    }
    if forall p :: Covers(r, p) ==> p in tree && tree[p] == r {
      assert Owned(tree, r) == whole;
    }
  }

  /** An exact counter of zero proves that every page of the record is current, which is what
      lets a read copy several pages at once. */
  lemma ZeroCounterIsWhole(log: seq<Rec>, tree: map<nat, Rec>, invalid: map<nat, nat>, i: nat, p: nat)
    requires Counted(log, tree, invalid, true)
    requires i < |log| && log[i].e.Write? && invalid[log[i].addr] == 0
    requires forall q :: q in tree ==> Covers(tree[q], q)
    requires Covers(log[i], p)
    ensures p in tree && tree[p] == log[i]
  {
    assert Accounted(tree, invalid, log[i]) == log[i].e.num;
    WholeIffOwned(tree, log[i]);
  }

  lemma {:induction false} IntervalSize(lo: nat, n: nat, s: set<nat>)
    requires forall q :: q in s <==> lo <= q < lo + n
    ensures |s| == n
  {
    if n > 0 {
      IntervalSize(lo, n - 1, s - {lo + n - 1});
    } else {
      assert s == {};
    }
  }

  lemma {:induction false} SubsetSize(a: set<nat>, b: set<nat>)
    requires a <= b
    ensures |a| <= |b|
    ensures |a| == |b| ==> a == b
  {
    if a != {} {
      var x :| x in a;
      SubsetSize(a - {x}, b - {x});
    }
  }

  // ---------------------------------------------------------------------------------------
  // Moving pages between records
  // ---------------------------------------------------------------------------------------

  /** The index together with the two things an index change has to keep in step with it. */
  datatype Ledger = Ledger(tree: map<nat, Rec>, invalid: map<nat, nat>, free: set<nat>)

  /** Count page `p` as invalid in its record and free its block. */
  function Retire(l: Ledger, p: nat): Ledger {
    if p in l.tree && Covers(l.tree[p], p) && l.tree[p].addr in l.invalid then
      var o := l.tree[p];
      l.(invalid := l.invalid[o.addr := l.invalid[o.addr] + 1], free := l.free + {BlockOf(o, p)})
    else l
  }

  function Take(l: Ledger, r: Rec, p: nat, release: bool): Ledger {
    var m := if release then Retire(l, p) else l;
    m.(tree := l.tree[p := r])
  }

  /** The first `n` pages of `r` taken over by it. */
  function TakeFirst(l: Ledger, r: Rec, n: nat, release: bool): Ledger
    requires r.e.Write?
  {
    if n == 0 then l else Take(TakeFirst(l, r, n - 1, release), r, r.e.pgoff + n - 1, release)
  }

  function Drop(l: Ledger, p: nat, release: bool): Ledger {
    var m := if release then Retire(l, p) else l;
    m.(tree := l.tree - {p})
  }

  /** Pages `from` up to but not including `to` taken out of the index. */
  function DropRange(l: Ledger, from: nat, to: nat, release: bool): Ledger
  {
    if to <= from then l else Drop(DropRange(l, from, to - 1, release), to - 1, release)
  }

  function AssignFirst(tree: map<nat, Rec>, r: Rec, n: nat): map<nat, Rec>
    requires r.e.Write? && n <= r.e.num
  {
    tree + map p | r.e.pgoff <= p < r.e.pgoff + n && Covers(r, p) :: r
  }

  lemma AssignFirstStep(tree: map<nat, Rec>, r: Rec, n: nat)
    requires r.e.Write? && 0 < n <= r.e.num
    ensures AssignFirst(tree, r, n) == AssignFirst(tree, r, n - 1)[r.e.pgoff + n - 1 := r]
  {
    var t, u := AssignFirst(tree, r, n), AssignFirst(tree, r, n - 1)[r.e.pgoff + n - 1 := r];
    assert forall p :: p in t <==> p in u;
  }

  lemma AssignFirstAll(tree: map<nat, Rec>, r: Rec)
    requires r.e.Write?
    ensures AssignFirst(tree, r, r.e.num) == Assign(tree, r)
  {
  }

  lemma TakeIndex(l: Ledger, r: Rec, p: nat, release: bool)
    ensures Take(l, r, p, release).tree == l.tree[p := r]
    ensures !release ==> Take(l, r, p, release) == l.(tree := l.tree[p := r])
  {
  }

  lemma {:induction false} TakeFirstIndex(l: Ledger, r: Rec, n: nat, release: bool)
    requires r.e.Write? && n <= r.e.num
    ensures TakeFirst(l, r, n, release).tree == AssignFirst(l.tree, r, n)
    ensures !release ==> TakeFirst(l, r, n, release).(tree := l.tree) == l
  {
    var m, k := l, 0;
    assert AssignFirst(l.tree, r, 0) == l.tree;
    while k < n
      invariant 0 <= k <= n && m == TakeFirst(l, r, k, release)
      invariant m.tree == AssignFirst(l.tree, r, k) && (!release ==> m.(tree := l.tree) == l)
    {
      AssignFirstStep(l.tree, r, k + 1);
      TakeIndex(m, r, r.e.pgoff + k, release);
      m, k := Take(m, r, r.e.pgoff + k, release), k + 1;
    }
  }

  lemma {:induction false} DropRangeIndex(l: Ledger, from: nat, to: nat, release: bool)
    ensures DropRange(l, from, to, release).tree == Cut(l.tree, from, to)
    ensures !release ==> DropRange(l, from, to, release).(tree := l.tree) == l
  {
    if to <= from {
      assert Cut(l.tree, from, to) == l.tree;
    } else {
      DropRangeIndex(l, from, to - 1, release);
    }
  }

  /** The index entry of page `p` is a logged record, and its block is in the device and in use. */
  ghost predicate Backed(mem: seq<byte>, log: seq<Rec>, l: Ledger, p: nat) {
    p in l.tree ==>
      && l.tree[p] in log && Covers(l.tree[p], p)
      && InDevice(mem, BlockOf(l.tree[p], p)) && BlockOf(l.tree[p], p) !in l.free
  }

  /** The books are in order: every index entry is a logged record with a counter, no block
      backs two pages, and live and free blocks do not overlap. */
  ghost predicate Booked(mem: seq<byte>, log: seq<Rec>, l: Ledger) {
    && DistinctAddrs(log) && HasCounter(log, l.invalid)
    && (forall p {:trigger Backed(mem, log, l, p)} :: Backed(mem, log, l, p))
    && (forall p, q {:trigger Apart(l.tree, p, q)} :: Apart(l.tree, p, q))
    && (forall b :: b in l.free ==> InDevice(mem, b))
  }

  lemma BookedIndex(mem: seq<byte>, log: seq<Rec>, l: Ledger)
    requires Booked(mem, log, l)
    ensures Placed(mem, l.tree, l.free)
    ensures forall p :: p in l.tree ==> l.tree[p] in log
  {
    forall p | p in l.tree
      ensures l.tree[p] in log && Covers(l.tree[p], p)
      ensures InDevice(mem, BlockOf(l.tree[p], p)) && BlockOf(l.tree[p], p) !in l.free
    {
      assert Backed(mem, log, l, p);
    }
  }

  /** `r` may take over page `p`: its block there is new to the books. */
  ghost predicate CanTake(mem: seq<byte>, log: seq<Rec>, l: Ledger, r: Rec, p: nat) {
    && r in log && Covers(r, p) && InDevice(mem, BlockOf(r, p))
    && (p in l.tree ==> l.tree[p] != r)
    && !Live(l.tree, BlockOf(r, p)) && BlockOf(r, p) !in l.free
  }

  lemma RetireCounts(log: seq<Rec>, l: Ledger, p: nat, i: nat)
    requires DistinctAddrs(log) && HasCounter(log, l.invalid) && i < |log|
    requires p in l.tree && l.tree[p] in log && Covers(l.tree[p], p)
    ensures HasCounter(log, Retire(l, p).invalid)
    ensures Retire(l, p).invalid[log[i].addr] == l.invalid[log[i].addr] + (if log[i] == l.tree[p] then 1 else 0)
  {
  }

  lemma TakeCounts(log: seq<Rec>, l: Ledger, r: Rec, p: nat, i: nat)
    requires DistinctAddrs(log) && HasCounter(log, l.invalid) && i < |log|
    requires p in l.tree ==> l.tree[p] in log && Covers(l.tree[p], p) && l.tree[p] != r
    ensures HasCounter(log, Take(l, r, p, true).invalid)
    ensures Gained(log, l, Take(l, r, p, true), r, 1, i)
  {
    if p in l.tree {
      RetireCounts(log, l, p, i);
    }
    SwapOwner(l.tree, p, r, log[i]);
  }

  lemma TakeKeepsBooks(mem: seq<byte>, log: seq<Rec>, l: Ledger, r: Rec, p: nat)
    requires Booked(mem, log, l) && CanTake(mem, log, l, r, p)
    ensures Booked(mem, log, Take(l, r, p, true))
  {
    var m := Take(l, r, p, true);
    assert Backed(mem, log, l, p);
    if p in l.tree {
      assert Backs(l.tree, p, BlockOf(l.tree[p], p));
    }
    forall q: nat
      ensures Backed(mem, log, m, q) && (q in m.tree && q != p ==> BlockOf(m.tree[q], q) != BlockOf(r, p))
    {
      assert Backed(mem, log, l, q) && Apart(l.tree, p, q);
      if q in m.tree && q != p {
        assert Backs(l.tree, q, BlockOf(l.tree[q], q));
      }
    }
    forall x, y
      ensures Apart(m.tree, x, y)
    {
      assert Apart(l.tree, x, y);
    }
  }

  lemma DropCounts(log: seq<Rec>, l: Ledger, p: nat, i: nat)
    requires DistinctAddrs(log) && HasCounter(log, l.invalid) && i < |log|
    requires p in l.tree ==> l.tree[p] in log && Covers(l.tree[p], p)
    ensures HasCounter(log, Drop(l, p, true).invalid)
    ensures Gained(log, l, Drop(l, p, true), log[i], 0, i)
  {
    if p in l.tree {
      RetireCounts(log, l, p, i);
      LoseOwner(l.tree, p, log[i]);
    } else {
      assert l.tree - {p} == l.tree;
    }
  }

  lemma DropKeepsBooks(mem: seq<byte>, log: seq<Rec>, l: Ledger, p: nat)
    requires Booked(mem, log, l)
    ensures Booked(mem, log, Drop(l, p, true))
  {
    var m := Drop(l, p, true);
    assert Backed(mem, log, l, p);
    forall q
      ensures Backed(mem, log, m, q)
    {
      assert Backed(mem, log, l, q) && Apart(l.tree, p, q);
    }
    forall x, y
      ensures Apart(m.tree, x, y)
    {
      assert Apart(l.tree, x, y);
    }
  }

  /** `r` may take over its pages from the `n`th on. */
  ghost predicate Room(mem: seq<byte>, log: seq<Rec>, l: Ledger, r: Rec, n: nat) {
    r in log && r.e.Write? && forall p {:trigger CanTake(mem, log, l, r, p)} :: Covers(r, p) && r.e.pgoff + n <= p ==>
      CanTake(mem, log, l, r, p)
  }

  /** From ledger `l` to ledger `m` record `i` of the log gained `n` pages if it is `r`, and none
      otherwise. */
  ghost predicate Gained(log: seq<Rec>, l: Ledger, m: Ledger, r: Rec, n: nat, i: nat) {
    i < |log| && log[i].addr in l.invalid && log[i].addr in m.invalid ==>
      Accounted(m.tree, m.invalid, log[i]) == Accounted(l.tree, l.invalid, log[i]) + (if log[i] == r then n else 0)
  }

  ghost predicate Credited(log: seq<Rec>, l: Ledger, m: Ledger, r: Rec, n: nat) {
    forall i {:trigger Gained(log, l, m, r, n, i)} :: Gained(log, l, m, r, n, i)
  }

  lemma TakeNext(mem: seq<byte>, log: seq<Rec>, m: Ledger, r: Rec, n: nat)
    requires Booked(mem, log, m) && Room(mem, log, m, r, n) && n < r.e.num
    ensures Booked(mem, log, Take(m, r, r.e.pgoff + n, true))
    ensures Room(mem, log, Take(m, r, r.e.pgoff + n, true), r, n + 1)
  {
    var q := r.e.pgoff + n;
    assert CanTake(mem, log, m, r, q);
    TakeKeepsBooks(mem, log, m, r, q);
    forall p | Covers(r, p) && r.e.pgoff + n + 1 <= p
      ensures CanTake(mem, log, Take(m, r, q, true), r, p)
    {
      assert CanTake(mem, log, m, r, p);
      TakeLeavesRoom(mem, log, m, r, q, r, p);
    }
  }

  lemma TakeLeavesRoom(mem: seq<byte>, log: seq<Rec>, m: Ledger, r: Rec, q: nat, s: Rec, p: nat)
    requires Booked(mem, log, m) && CanTake(mem, log, m, r, q) && CanTake(mem, log, m, s, p)
    requires BlockOf(r, q) != BlockOf(s, p) && (p == q ==> r != s)
    ensures CanTake(mem, log, Take(m, r, q, true), s, p)
  {
    var t := Take(m, r, q, true);
    assert Backed(mem, log, m, q);
    forall x: nat
      ensures !Backs(t.tree, x, BlockOf(s, p))
    {
      assert !Backs(m.tree, x, BlockOf(s, p));
    }
    if q in m.tree {
      assert !Backs(m.tree, q, BlockOf(s, p));
    }
  }

  lemma TakeNextCounts(mem: seq<byte>, log: seq<Rec>, l: Ledger, m: Ledger, r: Rec, n: nat)
    requires Booked(mem, log, m) && Room(mem, log, m, r, n) && n < r.e.num
    requires HasCounter(log, l.invalid) && Credited(log, l, m, r, n)
    ensures Credited(log, l, Take(m, r, r.e.pgoff + n, true), r, n + 1)
  {
    var q := r.e.pgoff + n;
    var t, k := Take(m, r, q, true), n + 1;
    assert CanTake(mem, log, m, r, q) && Backed(mem, log, m, q);
    forall i: nat
      ensures Gained(log, l, t, r, k, i)
    {
      if i < |log| {
        TakeCounts(log, m, r, q, i);
        assert Gained(log, l, m, r, n, i);
      }
    }
  }

  /** Taking over the pages of a new record keeps the books, and every record stays accounted
      for: what the old owners lose from the index they gain in their counters. */
  lemma TakeFirstReady(mem: seq<byte>, log: seq<Rec>, l: Ledger, r: Rec, n: nat)
    requires Booked(mem, log, l) && Room(mem, log, l, r, 0) && n <= r.e.num
    ensures var m := TakeFirst(l, r, n, true);
            Booked(mem, log, m) && Room(mem, log, m, r, n) && Credited(log, l, m, r, n)
  {
    var m, k := l, 0;
    while k < n
      invariant 0 <= k <= n && m == TakeFirst(l, r, k, true)
      invariant Booked(mem, log, m) && Room(mem, log, m, r, k) && Credited(log, l, m, r, k)
    {
      TakeNext(mem, log, m, r, k);
      TakeNextCounts(mem, log, l, m, r, k);
      m, k := Take(m, r, r.e.pgoff + k, true), k + 1;
    }
  }

  /** Dropping pages keeps the books and every account. */
  lemma DropRangeKeepsBooks(mem: seq<byte>, log: seq<Rec>, l: Ledger, from: nat, to: nat)
    requires Booked(mem, log, l)
    ensures Booked(mem, log, DropRange(l, from, to, true))
    ensures forall i :: 0 <= i < |log| ==> Gained(log, l, DropRange(l, from, to, true), log[i], 0, i)
  {
    var m, k := l, from;
    while k < to
      invariant from <= k && (from <= to ==> k <= to) && m == DropRange(l, from, k, true)
      invariant Booked(mem, log, m)
      invariant forall i :: 0 <= i < |log| ==> Gained(log, l, m, log[i], 0, i)
    {
      assert Backed(mem, log, m, k);
      DropKeepsBooks(mem, log, m, k);
      forall i | 0 <= i < |log|
        ensures Gained(log, l, Drop(m, k, true), log[i], 0, i)
      {
        DropCounts(log, m, k, i);
      }
      m, k := Drop(m, k, true), k + 1;
    }
  }

  /** Skipping pages that have no index entry changes nothing. */
  lemma {:induction false} SkipHole(l: Ledger, from: nat, mid: nat, to: nat, release: bool)
    requires from <= mid <= to
    requires forall p :: mid <= p < to ==> p !in DropRange(l, from, mid, release).tree
    ensures DropRange(l, from, to, release) == DropRange(l, from, mid, release)
  {
    if mid < to {
      SkipHole(l, from, mid, to - 1, release);
      var m := DropRange(l, from, mid, release);
      assert m.tree - {to - 1} == m.tree;
    }
  }

  lemma {:induction false} LeastKeyExists(tree: map<nat, Rec>, from: nat, k: nat)
    requires k in tree && from <= k
    ensures exists m :: m in tree && from <= m && forall q :: q in tree && from <= q ==> m <= q
    decreases k
  {
    if q :| q in tree && from <= q < k {
      LeastKeyExists(tree, from, q);
    }
  }

  // ---------------------------------------------------------------------------------------
  // Write records laid over an index
  // ---------------------------------------------------------------------------------------

  /** The index entries that a list of write records brings with it. */
  function Overlay(es: seq<Rec>): map<nat, Rec>
    requires forall i :: 0 <= i < |es| ==> es[i].e.Write?
  {
    if es == [] then map[] else Assign(Overlay(es[..|es| - 1]), es[|es| - 1])
  }

  lemma AssignOver(tree: map<nat, Rec>, ov: map<nat, Rec>, r: Rec)
    requires r.e.Write?
    ensures Assign(tree + ov, r) == tree + Assign(ov, r)
  {
  }

  /** Replaying records appended to a log lays their pages over its index. */
  lemma {:induction false} ReplayOverlay(log: seq<Rec>, es: seq<Rec>)
    requires forall i :: 0 <= i < |es| ==> es[i].e.Write?
    ensures Meaning(log + es).tree == Meaning(log).tree + Overlay(es)
  {
    if es == [] {
      assert log + es == log;
    } else {
      var k := |es| - 1;
      ReplayOverlay(log, es[..k]);
      assert log + es == (log + es[..k]) + [es[k]];
      ReplayAppend(EMPTY, log + es[..k], es[k], {});
      AssignOver(Meaning(log).tree, Overlay(es[..k]), es[k]);
    }
  }

  /** The records cover the pages from..to-1 one after the other. */
  predicate Tiles(es: seq<Rec>, from: nat, to: nat) {
    if es == [] then from == to
    else
      var r := es[|es| - 1];
      r.e.Write? && 0 < r.e.num && r.e.pgoff + r.e.num == to && Tiles(es[..|es| - 1], from, r.e.pgoff)
  }

  lemma {:induction false} TilesBounds(es: seq<Rec>, from: nat, to: nat)
    requires Tiles(es, from, to)
    ensures from <= to
    ensures forall i :: 0 <= i < |es| ==>
              es[i].e.Write? && 0 < es[i].e.num && from <= es[i].e.pgoff && es[i].e.pgoff + es[i].e.num <= to
  {
    if es != [] {
      TilesBounds(es[..|es| - 1], from, es[|es| - 1].e.pgoff);
    }
  }

  lemma {:induction false} TileAt(es: seq<Rec>, from: nat, to: nat, p: nat)
    requires Tiles(es, from, to) && forall i :: 0 <= i < |es| ==> es[i].e.Write?
    ensures p in Overlay(es) <==> from <= p < to
    ensures p in Overlay(es) ==> Overlay(es)[p] in es && Covers(Overlay(es)[p], p)
  {
    if es != [] {
      var k := |es| - 1;
      TileAt(es[..k], from, es[k].e.pgoff, p);
      TilesBounds(es[..k], from, es[k].e.pgoff);
      assert p in Overlay(es) <==> p in Overlay(es[..k]) || Covers(es[k], p);
      assert Covers(es[k], p) ==> Overlay(es)[p] == es[k];
    }
  }

  // ---------------------------------------------------------------------------------------
  // Committing staged records
  // ---------------------------------------------------------------------------------------

  function TakeAll(l: Ledger, es: seq<Rec>): Ledger
    requires forall i :: 0 <= i < |es| ==> es[i].e.Write?
  {
    if es == [] then l
    else
      var r := es[|es| - 1];
      TakeFirst(TakeAll(l, es[..|es| - 1]), r, r.e.num, true)
  }

  ghost predicate Disjoint(r: Rec, s: Rec) {
    forall p, q :: Covers(r, p) && Covers(s, q) ==> BlockOf(r, p) != BlockOf(s, q)
  }

  lemma TakeNextLeavesRoom(mem: seq<byte>, log: seq<Rec>, m: Ledger, r: Rec, n: nat, s: Rec)
    requires Booked(mem, log, m) && Room(mem, log, m, r, n) && n < r.e.num && Room(mem, log, m, s, 0)
    requires r != s && Disjoint(r, s)
    ensures Room(mem, log, Take(m, r, r.e.pgoff + n, true), s, 0)
  {
    var q := r.e.pgoff + n;
    assert CanTake(mem, log, m, r, q);
    forall p | Covers(s, p)
      ensures CanTake(mem, log, Take(m, r, q, true), s, p)
    {
      assert CanTake(mem, log, m, s, p);
      TakeLeavesRoom(mem, log, m, r, q, s, p);
    }
  }

  lemma TakeFirstLeavesRoom(mem: seq<byte>, log: seq<Rec>, l: Ledger, r: Rec, s: Rec)
    requires Booked(mem, log, l) && Room(mem, log, l, r, 0) && Room(mem, log, l, s, 0)
    requires r != s && Disjoint(r, s)
    ensures Room(mem, log, TakeFirst(l, r, r.e.num, true), s, 0)
  {
    var m, k := l, 0;
    while k < r.e.num
      invariant 0 <= k <= r.e.num && m == TakeFirst(l, r, k, true)
      invariant Booked(mem, log, m) && Room(mem, log, m, r, k) && Room(mem, log, m, s, 0)
    {
      TakeNext(mem, log, m, r, k);
      TakeNextLeavesRoom(mem, log, m, r, k, s);
      m, k := Take(m, r, r.e.pgoff + k, true), k + 1;
    }
  }

  ghost predicate Takeable(mem: seq<byte>, log: seq<Rec>, l: Ledger, es: seq<Rec>) {
    forall k {:trigger Inside(TheTaking, k)} :: Inside(TheTaking, k) ==> TakeableRecords(mem, log, l, es)
  }

  /** The records `es` can take over their pages one after the other. */
  ghost predicate TakeableRecords(mem: seq<byte>, log: seq<Rec>, l: Ledger, es: seq<Rec>) {
    && Booked(mem, log, l)
    && (forall i :: 0 <= i < |es| ==> Room(mem, log, l, es[i], 0))
    && (forall i, j :: 0 <= i < j < |es| ==> es[i] != es[j] && Disjoint(es[i], es[j]))
  }

  lemma TakeableParts(mem: seq<byte>, log: seq<Rec>, l: Ledger, es: seq<Rec>)
    requires Takeable(mem, log, l, es)
    ensures TakeableRecords(mem, log, l, es)
    ensures forall i :: 0 <= i < |es| ==> es[i].e.Write?
  {
    assert Inside(TheTaking, 0);
  }

  /** After the first `k` records the books are in order and the rest can still be taken. */
  lemma {:induction false} TakeAllKeepsBooks(mem: seq<byte>, log: seq<Rec>, l: Ledger, es: seq<Rec>, k: nat)
    requires TakeableRecords(mem, log, l, es) && k <= |es|
    ensures Booked(mem, log, TakeAll(l, es[..k]))
    ensures forall j :: k <= j < |es| ==> Room(mem, log, TakeAll(l, es[..k]), es[j], 0)
  {
    if k > 0 {
      TakeAllKeepsBooks(mem, log, l, es, k - 1);
      assert es[..k][..k - 1] == es[..k - 1];
      var m, r := TakeAll(l, es[..k - 1]), es[k - 1];
      TakeFirstReady(mem, log, m, r, r.e.num);
      forall j | k <= j < |es|
        ensures Room(mem, log, TakeFirst(m, r, r.e.num, true), es[j], 0)
      {
        TakeFirstLeavesRoom(mem, log, m, r, es[j]);
      }
    }
  }

  /** Each of these records keeps all its pages. */
  lemma {:induction false} TileOwner(es: seq<Rec>, from: nat, to: nat, i: nat, p: nat)
    requires Tiles(es, from, to) && (forall j :: 0 <= j < |es| ==> es[j].e.Write?) && i < |es| && Covers(es[i], p)
    ensures p in Overlay(es) && Overlay(es)[p] == es[i]
  {
    var k := |es| - 1;
    if i < k {
      TileOwner(es[..k], from, es[k].e.pgoff, i, p);
      TilesBounds(es[..k], from, es[k].e.pgoff);
    }
  }

  lemma {:induction false} TakeAllIndex(l: Ledger, es: seq<Rec>)
    requires forall i :: 0 <= i < |es| ==> es[i].e.Write?
    ensures TakeAll(l, es).tree == l.tree + Overlay(es)
  {
    if es != [] {
      var k := |es| - 1;
      TakeAllIndex(l, es[..k]);
      TakeFirstIndex(TakeAll(l, es[..k]), es[k], es[k].e.num, true);
      AssignFirstAll(TakeAll(l, es[..k]).tree, es[k]);
      AssignOver(l.tree, Overlay(es[..k]), es[k]);
    }
  }

  /** How many pages of `r` the list hands over to it. */
  function Handed(es: seq<Rec>, r: Rec): nat {
    if es == [] then 0
    else Handed(es[..|es| - 1], r) + (if es[|es| - 1] == r && r.e.Write? then r.e.num else 0)
  }

  lemma {:induction false} TakeAllCounts(mem: seq<byte>, log: seq<Rec>, l: Ledger, es: seq<Rec>, i: nat)
    requires TakeableRecords(mem, log, l, es) && i < |log|
    ensures Gained(log, l, TakeAll(l, es), log[i], Handed(es, log[i]), i)
  {
    if es != [] {
      var k := |es| - 1;
      TakeAllCounts(mem, log, l, es[..k], i);
      TakeAllKeepsBooks(mem, log, l, es, k);
      TakeFirstReady(mem, log, TakeAll(l, es[..k]), es[k], es[k].e.num);
      assert Gained(log, TakeAll(l, es[..k]), TakeAll(l, es), es[k], es[k].e.num, i);
    }
  }

  /** Write records appended after one another: the size each of them finds and leaves. */
  function SizeAfter(size: nat, es: seq<Rec>): nat {
    if es == [] || es[|es| - 1].e.LinkChange? then size else es[|es| - 1].e.size
  }

  predicate Appends(size: nat, es: seq<Rec>) {
    es == [] ||
    var k := |es| - 1;
    es[k].e.Write? && Appends(size, es[..k]) && Appendable(es[k].e, SizeAfter(size, es[..k]))
  }

  lemma {:induction false} AppendedLog(log: seq<Rec>, es: seq<Rec>)
    requires WellSized(log) && Settled(log) && Appends(Meaning(log).size, es)
    ensures WellSized(log + es) && Settled(log + es)
    ensures Meaning(log + es).size == SizeAfter(Meaning(log).size, es)
  {
    if es == [] {
      assert log + es == log;
    } else {
      var k := |es| - 1;
      AppendedLog(log, es[..k]);
      assert log + es == (log + es[..k]) + [es[k]];
      ReplayAppend(EMPTY, log + es[..k], es[k], {});
      assert LastOf(log + es, Resizes) == |log + es| - 1;
    }
  }

  lemma {:induction false} HandedOnce(es: seq<Rec>, r: Rec)
    requires forall i, j :: 0 <= i < j < |es| ==> es[i] != es[j]
    ensures Handed(es, r) == if r in es && r.e.Write? then r.e.num else 0
  {
    if es != [] {
      var k := |es| - 1;
      HandedOnce(es[..k], r);
      assert es == es[..k] + [es[k]];
      assert es[k] !in es[..k];
    }
  }

  /** Between two moments of an update blocks only become free and counters only go up. */
  ghost predicate Grown(l: Ledger, m: Ledger) {
    l.free <= m.free && forall a :: a in l.invalid ==> a in m.invalid && l.invalid[a] <= m.invalid[a]
  }

  lemma {:induction false} TakeFirstGrows(l: Ledger, r: Rec, n: nat)
    requires r.e.Write?
    ensures Grown(l, TakeFirst(l, r, n, true))
  {
    if n > 0 {
      TakeFirstGrows(l, r, n - 1);
    }
  }

  lemma {:induction false} TakeAllGrows(l: Ledger, es: seq<Rec>, k: nat)
    requires k <= |es| && forall i :: 0 <= i < |es| ==> es[i].e.Write?
    ensures Grown(TakeAll(l, es[..k]), TakeAll(l, es))
  {
    if k < |es| {
      var n := |es| - 1;
      TakeAllGrows(l, es[..n], k);
      assert es[..n][..k] == es[..k];
      TakeFirstGrows(TakeAll(l, es[..n]), es[n], es[n].e.num);
    } else {
      assert es[..k] == es;
    }
  }

  lemma {:induction false} DropRangeGrows(l: Ledger, from: nat, to: nat)
    ensures Grown(l, DropRange(l, from, to, true))
  {
    if from < to {
      DropRangeGrows(l, from, to - 1);
    }
  }

  /** Block `b` backs one of the pages from..to-1. */
  ghost predicate BacksIn(tree: map<nat, Rec>, from: nat, to: nat, b: nat) {
    exists p :: from <= p < to && Backs(tree, p, b)
  }

  lemma BacksInStep(tree: map<nat, Rec>, from: nat, to: nat, b: nat)
    requires from <= to
    ensures BacksIn(tree, from, to + 1, b) <==> BacksIn(tree, from, to, b) || Backs(tree, to, b)
  {
    if BacksIn(tree, from, to, b) {
      var p :| from <= p < to && Backs(tree, p, b);
      assert from <= p < to + 1 && Backs(tree, p, b);
    }
  }

  lemma BacksInJoin(tree: map<nat, Rec>, from: nat, mid: nat, to: nat, b: nat)
    requires from <= mid <= to
    ensures BacksIn(tree, from, to, b) <==> BacksIn(tree, from, mid, b) || BacksIn(tree, mid, to, b)
  {
    if BacksIn(tree, from, mid, b) {
      var p :| from <= p < mid && Backs(tree, p, b);
      assert from <= p < to && Backs(tree, p, b);
    }
    if BacksIn(tree, mid, to, b) {
      var p :| mid <= p < to && Backs(tree, p, b);
      assert from <= p < to && Backs(tree, p, b);
    }
  }

  lemma RetireFrees(mem: seq<byte>, log: seq<Rec>, l: Ledger, p: nat, b: nat)
    requires Booked(mem, log, l)
    ensures b in Retire(l, p).free <==> b in l.free || Backs(l.tree, p, b)
  {
    assert Backed(mem, log, l, p);
  }

  /** Cutting pages off frees exactly the blocks behind them. */
  lemma {:induction false} DropRangeFrees(mem: seq<byte>, log: seq<Rec>, l: Ledger, from: nat, to: nat, b: nat)
    requires Booked(mem, log, l)
    ensures b in DropRange(l, from, to, true).free <==> b in l.free || BacksIn(l.tree, from, to, b)
  {
    if from < to {
      var m := DropRange(l, from, to - 1, true);
      DropRangeFrees(mem, log, l, from, to - 1, b);
      DropRangeKeepsBooks(mem, log, l, from, to - 1);
      DropRangeIndex(l, from, to - 1, true);
      assert Backs(m.tree, to - 1, b) <==> Backs(l.tree, to - 1, b);
      RetireFrees(mem, log, m, to - 1, b);
      BacksInStep(l.tree, from, to - 1, b);
    }
  }

  lemma TakeFirstElsewhere(l: Ledger, r: Rec, n: nat, p: nat, b: nat)
    requires r.e.Write? && n <= r.e.num && r.e.pgoff + n <= p
    ensures Backs(TakeFirst(l, r, n, true).tree, p, b) <==> Backs(l.tree, p, b)
  {
    TakeFirstIndex(l, r, n, true);
  }

  lemma {:induction false} TakeFirstFrees(mem: seq<byte>, log: seq<Rec>, l: Ledger, r: Rec, n: nat, b: nat)
    requires Booked(mem, log, l) && Room(mem, log, l, r, 0) && n <= r.e.num
    ensures b in TakeFirst(l, r, n, true).free <==> b in l.free || BacksIn(l.tree, r.e.pgoff, r.e.pgoff + n, b)
  {
    if n > 0 {
      var m, p := TakeFirst(l, r, n - 1, true), r.e.pgoff + n - 1;
      TakeFirstFrees(mem, log, l, r, n - 1, b);
      assert Booked(mem, log, m) by {
        TakeFirstReady(mem, log, l, r, n - 1);
      }
      TakeFirstElsewhere(l, r, n - 1, p, b);
      RetireFrees(mem, log, m, p, b);
      BacksInStep(l.tree, r.e.pgoff, p, b);
    }
  }

  /** New records that cover from..to-1 free exactly the blocks that backed these pages. */
  lemma {:induction false} TakeAllFrees(mem: seq<byte>, log: seq<Rec>, l: Ledger, es: seq<Rec>, from: nat, to: nat,
                                        b: nat)
    requires TakeableRecords(mem, log, l, es) && Tiles(es, from, to)
    ensures b in TakeAll(l, es).free <==> b in l.free || BacksIn(l.tree, from, to, b)
  {
    if es != [] {
      var k, r := |es| - 1, es[|es| - 1];
      var m := TakeAll(l, es[..k]);
      TakeAllFrees(mem, log, l, es[..k], from, r.e.pgoff, b);
      TakeAllKeepsBooks(mem, log, l, es, k);
      TilesBounds(es[..k], from, r.e.pgoff);
      forall p | r.e.pgoff <= p
        ensures Backs(m.tree, p, b) <==> Backs(l.tree, p, b)
      {
        TakeAllIndex(l, es[..k]);
        TileAt(es[..k], from, r.e.pgoff, p);
      }
      assert BacksIn(m.tree, r.e.pgoff, to, b) <==> BacksIn(l.tree, r.e.pgoff, to, b);
      TakeFirstFrees(mem, log, m, r, r.e.num, b);
      BacksInJoin(l.tree, from, r.e.pgoff, to, b);
    }
  }

  // ---------------------------------------------------------------------------------------
  // Collecting and moving records
  // ---------------------------------------------------------------------------------------

  lemma {:induction false} FilterMembers(log: seq<Rec>, drop: set<nat>)
    ensures forall r :: r in Filter(log, drop) <==> r in log && r.addr !in drop
    ensures DistinctAddrs(log) ==> DistinctAddrs(Filter(log, drop))
  {
    if log != [] {
      var k := |log| - 1;
      FilterMembers(log[..k], drop);
      assert log == log[..k] + [log[k]];
      assert forall i :: 0 <= i < |Filter(log[..k], drop)| ==> Filter(log[..k], drop)[i] in log[..k];
    }
  }

  lemma MovedOwned(kept: seq<Rec>, to: map<nat, nat>, tree: map<nat, Rec>, i: nat)
    requires DistinctAddrs(MoveLog(kept, to)) && i < |kept|
    requires forall p :: p in tree ==> tree[p] in kept
    ensures Owned(MoveTree(tree, to), MoveLog(kept, to)[i]) == Owned(tree, kept[i])
  {
    var m := MoveLog(kept, to);
    forall p | p in tree
      ensures Moved(tree[p], to) == m[i] <==> tree[p] == kept[i]
    {
      var j :| 0 <= j < |kept| && kept[j] == tree[p];
      assert m[j] == Moved(tree[p], to);
    }
  }

  /** The counters travel with the records. */
  ghost predicate CountersMoved(kept: seq<Rec>, to: map<nat, nat>, was: map<nat, nat>, now: map<nat, nat>) {
    forall i :: 0 <= i < |kept| ==>
      kept[i].addr in was && MoveLog(kept, to)[i].addr in now && now[MoveLog(kept, to)[i].addr] == was[kept[i].addr]
  }

  lemma MovedBacked(mem: seq<byte>, kept: seq<Rec>, l: Ledger, to: map<nat, nat>, m: Ledger, p: nat)
    requires Backed(mem, kept, l, p) && m.tree == MoveTree(l.tree, to) && m.free == l.free
    ensures Backed(mem, MoveLog(kept, to), m, p)
  {
    if p in l.tree {
      var j :| 0 <= j < |kept| && kept[j] == l.tree[p];
      assert MoveLog(kept, to)[j] == m.tree[p];
    }
  }

  /** A thorough collection moves records, counters and index entries together and so keeps
      the books and every count. */
  lemma MovedBooks(mem: seq<byte>, kept: seq<Rec>, l: Ledger, to: map<nat, nat>, now: map<nat, nat>)
    requires Booked(mem, kept, l) && DistinctAddrs(MoveLog(kept, to)) && CountersMoved(kept, to, l.invalid, now)
    ensures Booked(mem, MoveLog(kept, to), Ledger(MoveTree(l.tree, to), now, l.free))
  {
    var m := Ledger(MoveTree(l.tree, to), now, l.free);
    forall p: nat
      ensures Backed(mem, MoveLog(kept, to), m, p)
    {
      assert Backed(mem, kept, l, p);
      MovedBacked(mem, kept, l, to, m, p);
    }
    forall p: nat, q: nat
      ensures Apart(m.tree, p, q)
    {
      assert Apart(l.tree, p, q);
    }
  }

  lemma MovedCounts(kept: seq<Rec>, l: Ledger, to: map<nat, nat>, now: map<nat, nat>, exact: bool)
    requires DistinctAddrs(MoveLog(kept, to)) && CountersMoved(kept, to, l.invalid, now)
    requires forall p :: p in l.tree ==> l.tree[p] in kept
    requires Counted(kept, l.tree, l.invalid, exact)
    ensures Counted(MoveLog(kept, to), MoveTree(l.tree, to), now, exact)
  {
    var m := MoveLog(kept, to);
    forall i | 0 <= i < |m|
      ensures m[i].addr in now && m[i].e == kept[i].e
      ensures Accounted(MoveTree(l.tree, to), now, m[i]) == Accounted(l.tree, l.invalid, kept[i])
    {
      MovedOwned(kept, to, l.tree, i);
    }
  }
}
