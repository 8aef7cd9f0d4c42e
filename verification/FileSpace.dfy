/**
 How a file comes by blocks: its free blocks are spread over the lists of the CPUs in some way that
 the file does not see, and a request is met from one of those lists.
 */
module FileSpace {
  import opened Ranges
  import opened FreeLists
  import opened Allocator
  import opened FileData

  /** The lists hold the blocks of `free` and no others, each one once. */
  ghost predicate Spread(lists: seq<seq<Range>>, free: set<nat>) {
    forall k {:trigger Inside(TheSpread, k)} :: Inside(TheSpread, k) ==> Safe(Pool(lists, {}), free)
  }

  lemma SpreadParts(lists: seq<seq<Range>>, free: set<nat>)
    requires Spread(lists, free)
    ensures Safe(Pool(lists, {}), free)
  {
    assert Inside(TheSpread, 0);
  }

  /** Some list counts enough blocks for a request of `num`. */
  ghost predicate Served(lists: seq<seq<Range>>, num: nat) {
    exists c :: 0 <= c < |lists| && Sum(lists[c]) >= num
  }

  /** A request for `num` blocks that found these lists. */
  datatype Attempt = Attempt(lists: seq<seq<Range>>, num: nat, forLog: bool)

  /** It was turned down: no list counts enough. */
  ghost predicate Refused(a: Attempt, cpus: nat, free: set<nat>) {
    |a.lists| == cpus && Spread(a.lists, free) && 0 < a.num && !Served(a.lists, a.num)
  }

  /** One of the lists has this range for a node. */
  ghost predicate IsNode(lists: seq<seq<Range>>, r: Range) {
    exists c :: 0 <= c < |lists| && r in lists[c]
  }

  type Count = n: nat | 0 < n witness 1

  // ---------------------------------------------------------------------------------------
  // Counting
  // ---------------------------------------------------------------------------------------

  ghost function BlocksOf(r: Range): set<nat> {
    set x | r.low <= x <= r.high && Within(r, x)
  }

  ghost function ListBlocks(rs: seq<Range>): set<nat> {
    if rs == [] then {} else ListBlocks(rs[..|rs| - 1]) + BlocksOf(rs[|rs| - 1])
  }

  ghost function AllBlocks(lists: seq<seq<Range>>): set<nat> {
    if lists == [] then {} else AllBlocks(lists[..|lists| - 1]) + ListBlocks(lists[|lists| - 1])
  }

  lemma {:induction false} RangeSize(r: Range)
    requires r.low <= r.high + 1
    ensures |BlocksOf(r)| == Length(r)
    decreases r.high + 1 - r.low
  {
    if r.low <= r.high {
      if r.low == r.high {
        assert BlocksOf(r) == {r.low};
      } else {
        RangeSize(Range(r.low + 1, r.high));
        assert BlocksOf(r) == {r.low} + BlocksOf(Range(r.low + 1, r.high));
      }
    }
  }

  lemma {:induction false} ListHas(rs: seq<Range>, x: nat)
    ensures x in ListBlocks(rs) <==> Has(rs, x)
  {
    if rs != [] {
      var n := |rs| - 1;
      ListHas(rs[..n], x);
      if Has(rs[..n], x) {
        var i :| 0 <= i < n && Within(rs[..n][i], x);
        assert Within(rs[i], x);
      }
      if Has(rs, x) {
        var i :| 0 <= i < |rs| && Within(rs[i], x);
        assert i < n ==> Within(rs[..n][i], x);
      }
    }
  }

  lemma {:induction false} ListSize(rs: seq<Range>)
    requires Ordered(rs)
    ensures |ListBlocks(rs)| == Sum(rs)
  {
    if rs != [] {
      var n := |rs| - 1;
      forall i, j | 0 <= i < j < n
        ensures Precedes(rs[..n][i], rs[..n][j])
      {
        assert Precedes(rs[i], rs[j]);
      }
      ListSize(rs[..n]);
      RangeSize(rs[n]);
      forall x | x in ListBlocks(rs[..n])
        ensures x !in BlocksOf(rs[n])
      {
        ListHas(rs[..n], x);
        var i :| 0 <= i < n && Within(rs[..n][i], x);
        assert Precedes(rs[i], rs[n]);
      }
      assert ListBlocks(rs[..n]) !! BlocksOf(rs[n]);
    }
  }

  lemma {:induction false} AllHave(lists: seq<seq<Range>>, x: nat)
    ensures x in AllBlocks(lists) <==> exists c :: 0 <= c < |lists| && Has(lists[c], x)
  {
    if lists != [] {
      var n := |lists| - 1;
      AllHave(lists[..n], x);
      ListHas(lists[n], x);
      if c :| 0 <= c < n && Has(lists[..n][c], x) {
        assert Has(lists[c], x);
      }
      if c :| 0 <= c < |lists| && Has(lists[c], x) {
        assert c < n ==> Has(lists[..n][c], x);
      }
    }
  }

  /** Lists that count at most `k` blocks each have few together. */
  lemma {:induction false} FewBlocks(lists: seq<seq<Range>>, k: nat)
    requires forall c :: 0 <= c < |lists| ==> Ordered(lists[c]) && Sum(lists[c]) <= k
    ensures |AllBlocks(lists)| <= Times(|lists|, k)
  {
    if lists != [] {
      var n := |lists| - 1;
      FewBlocks(lists[..n], k);
      ListSize(lists[n]);
      UnionSize(AllBlocks(lists[..n]), ListBlocks(lists[n]));
    }
  }

  function Times(n: nat, k: nat): nat {
    if n == 0 then 0 else Times(n - 1, k) + k
  }

  lemma {:induction false} TimesIs(n: nat, k: nat)
    ensures Times(n, k) == n * k
  {
    if n > 0 {
      TimesIs(n - 1, k);
      assert n * k == (n - 1) * k + k;
    }
  }

  lemma {:induction false} UnionSize(a: set<nat>, b: set<nat>)
    ensures |a + b| <= |a| + |b|
  {
    assert a + b == a + (b - a) && a !! (b - a);
    assert b == (b - a) + (b * a) && (b - a) !! (b * a);
    assert |b| == |b - a| + |b * a|;
  }

  lemma FewFree(lists: seq<seq<Range>>, free: set<nat>, num: nat)
    requires Spread(lists, free) && 0 < num && !Served(lists, num)
    ensures |free| <= Times(|lists|, num - 1)
  {
    SpreadIsAll(lists, free);
    forall c | 0 <= c < |lists|
      ensures Sum(lists[c]) <= num - 1
    {
      assert !(Sum(lists[c]) >= num);
    }
    FewBlocks(lists, num - 1);
  }

  /** A request that is turned down tells how little is free. */
  lemma RefusedMeansFew(a: Attempt, cpus: nat, free: set<nat>)
    requires Refused(a, cpus, free)
    ensures |free| <= cpus * (a.num - 1)
  {
    FewFree(a.lists, free, a.num);
    TimesIs(cpus, a.num - 1);
  }

  /** One block is to be had as long as one is free. */
  lemma OneIsServed(lists: seq<seq<Range>>, free: set<nat>)
    requires Spread(lists, free) && free != {}
    ensures Served(lists, 1)
  {
    if !Served(lists, 1) {
      FewFree(lists, free, 1);
      TimesIs(|lists|, 0);
    }
  }

  lemma SpreadIsAll(lists: seq<seq<Range>>, free: set<nat>)
    requires Spread(lists, free)
    ensures AllBlocks(lists) == free && forall c :: 0 <= c < |lists| ==> Ordered(lists[c])
  {
    SpreadParts(lists, free);
    forall x: nat
      ensures x in AllBlocks(lists) <==> x in free
    {
      AllHave(lists, x);
      assert x in free <==> IsFree(Pool(lists, {}), x);
    }
  }

  // ---------------------------------------------------------------------------------------
  // Any spread
  // ---------------------------------------------------------------------------------------

  /** Block `b`, beyond all of `rs`, as a node of its own or as the end of the last one. */
  function Put(rs: seq<Range>, b: nat, apart: bool): seq<Range> {
    if rs != [] && rs[|rs| - 1].high + 1 == b && !apart then rs[..|rs| - 1] + [Range(rs[|rs| - 1].low, b)]
    else rs + [Range(b, b)]
  }

  lemma PutHas(rs: seq<Range>, b: nat, apart: bool)
    requires Ordered(rs) && forall x: nat :: Has(rs, x) ==> x < b
    ensures Ordered(Put(rs, b, apart))
    ensures forall x: nat :: Has(Put(rs, b, apart), x) <==> Has(rs, x) || x == b
  {
    var t := Put(rs, b, apart);
    forall i | 0 <= i < |rs|
      ensures rs[i].high < b
    {
      assert Within(rs[i], rs[i].high);
      assert Has(rs, rs[i].high);
    }
    forall i, j | 0 <= i < j < |t|
      ensures Precedes(t[i], t[j])
    {
      assert j < |rs| ==> Precedes(rs[i], rs[j]);
    }
    forall x: nat
      ensures Has(t, x) <==> Has(rs, x) || x == b
    {
      PutHasOne(rs, b, apart, x);
    }
  }

  lemma PutHasOne(rs: seq<Range>, b: nat, apart: bool, x: nat)
    requires Ordered(rs) && forall i :: 0 <= i < |rs| ==> rs[i].high < b
    ensures Has(Put(rs, b, apart), x) <==> Has(rs, x) || x == b
  {
    var t := Put(rs, b, apart);
    assert Within(t[|t| - 1], b);
    if Has(rs, x) {
      var i :| 0 <= i < |rs| && Within(rs[i], x);
      assert Within(t[i], x);
    }
    if Has(t, x) && x != b {
      var i :| 0 <= i < |t| && Within(t[i], x);
      assert Within(rs[i], x);
    }
  }

  lemma {:induction false} LeastExists(s: set<nat>, k: nat)
    requires k in s
    ensures exists m :: m in s && forall x :: x in s ==> m <= x
    decreases k
  {
    if x :| x in s && x < k {
      LeastExists(s, x);
    }
  }

  lemma SpreadMore(lists: seq<seq<Range>>, now: seq<seq<Range>>, held: set<nat>, b: nat, c: nat, apart: bool)
    requires Spread(lists, held) && c < |lists| && forall x :: x in held ==> x < b
    requires now == lists[c := Put(lists[c], b, apart)]
    ensures Spread(now, held + {b})
  {
    SpreadParts(lists, held);
    forall d, x: nat | 0 <= d < |lists| && Has(lists[d], x)
      ensures x < b
    {
      assert IsFree(Pool(lists, {}), x);
    }
    PutHas(lists[c], b, apart);
    forall x: nat
      ensures x in held + {b} <==> IsFree(Pool(now, {}), x)
    {
      if x == b {
        assert Has(now[c], x);
      } else if IsFree(Pool(lists, {}), x) {
        var d :| 0 <= d < |lists| && Has(lists[d], x);
        assert Has(now[d], x);
      } else {
        forall d | 0 <= d < |now|
          ensures !Has(now[d], x)
        {
          assert !Has(lists[d], x);
        }
      }
    }
  }

  /** All of `free` but `left` is in the lists, and `left` lies beyond it. */
  ghost predicate SpreadUpTo(lists: seq<seq<Range>>, free: set<nat>, left: set<nat>) {
    left <= free && Spread(lists, free - left) && forall x, y :: x in free - left && y in left ==> x < y
  }

  method PlaceNext(lists: seq<seq<Range>>, ghost free: set<nat>, left: set<nat>)
    returns (now: seq<seq<Range>>, left': set<nat>)
    requires SpreadUpTo(lists, free, left) && left != {} && lists != []
    ensures SpreadUpTo(now, free, left') && |left'| < |left| && |now| == |lists|
  {
    var k :| k in left;
    LeastExists(left, k);
    var b :| b in left && forall x :: x in left ==> b <= x;
    var any: int, apart: bool := *, *;
    var c := if 0 <= any < |lists| then any else 0;
    now, left' := lists[c := Put(lists[c], b, apart)], left - {b};
    SpreadMore(lists, now, free - left, b, c, apart);
    assert free - left' == (free - left) + {b};
  }

  lemma NothingSpread(lists: seq<seq<Range>>, free: set<nat>)
    requires forall c :: 0 <= c < |lists| ==> lists[c] == []
    ensures SpreadUpTo(lists, free, free)
  {
    assert free - free == {};
  }

  /** The blocks of `free` in the lists of `cpus` CPUs, in any way at all. */
  method AnyLists(free: set<nat>, cpus: nat) returns (lists: seq<seq<Range>>)
    requires 0 < cpus
    ensures |lists| == cpus && Spread(lists, free)
  {
    lists := seq(cpus, i => []);
    var left := free;
    NothingSpread(lists, free);
    while left != {}
      invariant |lists| == cpus && SpreadUpTo(lists, free, left)
      decreases |left|
    {
      lists, left := PlaceNext(lists, free, left);
    }
    assert free - {} == free;
  }

  /** An allocator with these lists, each with its first node anywhere. */
  method AnyAllocator(lists: seq<seq<Range>>) returns (a: BlockAllocator)
    requires lists != [] && forall c :: 0 <= c < |lists| ==> Ordered(lists[c]) && !Has(lists[c], 0)
    ensures a.Valid() && fresh(a) && fresh(a.lists) && |a.lists| == |lists|
    ensures forall c :: 0 <= c < |lists| ==> a.lists[c].ranges == lists[c]
  {
    var made: seq<FreeList> := [];
    for c := 0 to |lists|
      invariant |made| == c && fresh(made)
      invariant forall d :: 0 <= d < c ==> made[d].Usable() && made[d].ranges == lists[d]
      invariant forall d, e :: 0 <= d < e < c ==> made[d] != made[e]
    {
      var any: int := *;
      var first := if NONE <= any < |lists[c]| then any else NONE;
      var list := new FreeList.Loaded(lists[c], first);
      made := made + [list];
    }
    a := new BlockAllocator(made);
  }

  lemma NodeIsFree(lists: seq<seq<Range>>, free: set<nat>, c: nat, k: nat)
    requires Spread(lists, free) && c < |lists| && k < |lists[c]|
    ensures forall x :: Within(lists[c][k], x) ==> x in free
  {
    SpreadParts(lists, free);
    forall x: nat | Within(lists[c][k], x)
      ensures x in free
    {
      assert Has(lists[c], x);
      assert IsFree(Pool(lists, {}), x);
    }
  }

  lemma ListsAreUsable(lists: seq<seq<Range>>, free: set<nat>)
    requires Spread(lists, free) && 0 !in free
    ensures forall c :: 0 <= c < |lists| ==> Ordered(lists[c]) && !Has(lists[c], 0)
  {
    SpreadParts(lists, free);
    assert !IsFree(Pool(lists, {}), 0);
  }

  /** nova_new_blocks for single blocks, on any CPU: the blocks are those at the start of node `k` of
      list `c`. */
  method RequestFrom(lists: seq<seq<Range>>, num: nat) returns (blocknr: nat, got: nat, ghost c: nat, ghost k: nat)
    requires lists != [] && 0 < num && forall i :: 0 <= i < |lists| ==> Ordered(lists[i]) && !Has(lists[i], 0)
    ensures got > 0 <==> Served(lists, num)
    ensures got > 0 ==> c < |lists| && k < |lists[c]| && blocknr == lists[c][k].low && got <= Length(lists[c][k])
    ensures got <= num && (0 < got < num ==> lists[c][k] == Range(blocknr, blocknr + got - 1))
  {
    var a := AnyAllocator(lists);
    var any: int := *;
    var cpu := if 0 <= any < |lists| then any else 0;
    assert forall i :: 0 <= i < |lists| ==> a.lists[i].numFreeBlocks == Sum(lists[i]);
    var ret;
    ret, blocknr, c, k := a.NewBlocks(cpu, num, 0);
    got := if ret > 0 then ret else 0;
  }

  /** The same with lists over which `free` is spread in some way: the request succeeds if and only if
      some list counts enough blocks. */
  method Request(free: set<nat>, cpus: Count, num: nat) returns (blocknr: nat, got: nat, ghost lists: seq<seq<Range>>)
    requires 0 < num && 0 !in free
    ensures |lists| == cpus && Spread(lists, free)
    ensures got > 0 <==> Served(lists, num)
    ensures got <= num && forall x :: blocknr <= x < blocknr + got ==> x in free
    ensures 0 < got < num ==> IsNode(lists, Range(blocknr, blocknr + got - 1))
  {
    var spread := AnyLists(free, cpus);
    lists := spread;
    ListsAreUsable(lists, free);
    ghost var c, k;
    blocknr, got, c, k := RequestFrom(spread, num);
    if got > 0 {
      NodeIsFree(lists, free, c, k);
      assert forall x :: blocknr <= x < blocknr + got ==> Within(lists[c][k], x);
    }
  }
}
