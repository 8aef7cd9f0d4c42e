/**
 The block allocator of balloc.c over its per-CPU lists: which request succeeds, and what every
 run of allocations and frees keeps.
 */
module Allocator {
  import opened Ranges
  import opened FreeLists

  // ---------------------------------------------------------------------------------------
  // Runs
  // ---------------------------------------------------------------------------------------

  /** The lists and the blocks in use. */
  datatype Pool = Pool(lists: seq<seq<Range>>, live: set<nat>)

  /** One operation under the lock of list `c`: `num` blocks from node `k`, or a run put back.
      Which list, which node and how much are left open. */
  datatype Step = Alloc(c: nat, k: nat, num: nat) | Free(c: nat, gap: nat, n: Range)

  ghost predicate IsFree(p: Pool, x: nat) {
    exists c :: 0 <= c < |p.lists| && Has(p.lists[c], x)
  }

  /** Every list is in order; no block is in two ranges, in two lists, or both free and in use;
      and together they are always the blocks of the device that may be handed out. */
  ghost predicate Safe(p: Pool, device: set<nat>) {
    && (forall c :: 0 <= c < |p.lists| ==> Ordered(p.lists[c]))
    && (forall c, d, x :: 0 <= c < d < |p.lists| && Has(p.lists[c], x) ==> !Has(p.lists[d], x))
    && (forall x :: x in p.live ==> !IsFree(p, x))
    && (forall x :: x in device <==> x in p.live || IsFree(p, x))
  }

  /** In no list do ranges touch. */
  ghost predicate Coalesced(p: Pool) {
    forall c :: 0 <= c < |p.lists| ==> Sorted(p.lists[c])
  }

  ghost predicate Enabled(p: Pool, st: Step) {
    && st.c < |p.lists|
    && match st
       case Alloc(c, k, num) => k < |p.lists[c]| && num > 0
       case Free(c, gap, n) => Fits(p.lists[c], gap, n) && forall x :: Within(n, x) ==> x in p.live
  }

  predicate Among(x: nat, low: nat, count: int) {
    low <= x < low + count
  }

  ghost function Blocks(low: nat, count: int): set<nat> {
    set x | low <= x < low + count && Among(x, low, count)
  }

  ghost function After(p: Pool, st: Step): Pool
    requires Enabled(p, st)
  {
    match st
    case Alloc(c, k, num) =>
      var rs := p.lists[c];
      Pool(p.lists[c := Taken(rs, k, num)], p.live + Blocks(rs[k].low, Given(rs, k, num)))
    case Free(c, gap, n) =>
      Pool(p.lists[c := Merged(p.lists[c], gap, n)], p.live - Blocks(n.low, Length(n)))
  }

  lemma AllocFree(p: Pool, st: Step, x: nat)
    requires Enabled(p, st) && st.Alloc? && Ordered(p.lists[st.c])
    requires forall c, d :: 0 <= c < d < |p.lists| && Has(p.lists[c], x) ==> !Has(p.lists[d], x)
    ensures var rs := p.lists[st.c];
            IsFree(After(p, st), x) <==> IsFree(p, x) && x !in Blocks(rs[st.k].low, Given(rs, st.k, st.num))
  {
    var rs, q := p.lists[st.c], After(p, st);
    TakenHas(rs, st.k, st.num, x);
    if x in Blocks(rs[st.k].low, Given(rs, st.k, st.num)) {
      assert Within(rs[st.k], x);
      assert Has(rs, x);
    }
    if IsFree(p, x) && x !in Blocks(rs[st.k].low, Given(rs, st.k, st.num)) {
      var c :| 0 <= c < |p.lists| && Has(p.lists[c], x);
      assert Has(q.lists[c], x);
    }
    if IsFree(q, x) {
      var c :| 0 <= c < |q.lists| && Has(q.lists[c], x);
      assert Has(p.lists[c], x);
      assert c != st.c ==> !Has(rs, x);
    }
  }

  lemma AllocKeeps(p: Pool, st: Step, device: set<nat>)
    requires Safe(p, device) && Enabled(p, st) && st.Alloc?
    ensures Safe(After(p, st), device) && (Coalesced(p) ==> Coalesced(After(p, st)))
    ensures forall x :: x in Blocks(p.lists[st.c][st.k].low, Given(p.lists[st.c], st.k, st.num)) ==>
              x in device && x !in p.live
  {
    var rs, q := p.lists[st.c], After(p, st);
    TakenOrdered(rs, st.k, st.num);
    if Coalesced(p) {
      TakenSorted(rs, st.k, st.num);
    }
    forall x: nat
      ensures IsFree(q, x) <==> IsFree(p, x) && x !in Blocks(rs[st.k].low, Given(rs, st.k, st.num))
      ensures Has(q.lists[st.c], x) ==> Has(rs, x)
    {
      AllocFree(p, st, x);
      TakenHas(rs, st.k, st.num, x);
    }
    forall x | x in Blocks(rs[st.k].low, Given(rs, st.k, st.num))
      ensures IsFree(p, x)
    {
      assert Within(rs[st.k], x);
      assert Has(rs, x);
    }
  }

  lemma FreeFree(p: Pool, st: Step, x: nat)
    requires Enabled(p, st) && st.Free? && Ordered(p.lists[st.c])
    ensures IsFree(After(p, st), x) <==> IsFree(p, x) || x in Blocks(st.n.low, Length(st.n))
  {
    var rs, q := p.lists[st.c], After(p, st);
    MergedHas(rs, st.gap, st.n, x);
    if IsFree(p, x) {
      var c :| 0 <= c < |p.lists| && Has(p.lists[c], x);
      assert Has(q.lists[c], x);
    }
    if IsFree(q, x) && x !in Blocks(st.n.low, Length(st.n)) {
      var c :| 0 <= c < |q.lists| && Has(q.lists[c], x);
      assert Has(p.lists[c], x);
    }
    if x in Blocks(st.n.low, Length(st.n)) {
      assert Has(q.lists[st.c], x);
    }
  }

  lemma FreeKeeps(p: Pool, st: Step, device: set<nat>)
    requires Safe(p, device) && Enabled(p, st) && st.Free?
    ensures Safe(After(p, st), device) && (Coalesced(p) ==> Coalesced(After(p, st)))
  {
    var rs, q := p.lists[st.c], After(p, st);
    MergedOrdered(rs, st.gap, st.n);
    if Coalesced(p) {
      MergedSorted(rs, st.gap, st.n);
    }
    forall x: nat
      ensures IsFree(q, x) <==> IsFree(p, x) || x in Blocks(st.n.low, Length(st.n))
      ensures Has(q.lists[st.c], x) ==> Has(rs, x) || x in p.live
    {
      FreeFree(p, st, x);
      MergedHas(rs, st.gap, st.n, x);
    }
    forall c, d, x | 0 <= c < d < |q.lists| && Has(q.lists[c], x)
      ensures !Has(q.lists[d], x)
    {
      assert c != st.c && d != st.c ==> !Has(p.lists[d], x);
      assert x in p.live ==> !IsFree(p, x);
    }
  }

  ghost predicate CanRun(p: Pool, steps: seq<Step>)
    decreases |steps|
  {
    steps == [] || (Enabled(p, steps[0]) && CanRun(After(p, steps[0]), steps[1..]))
  }

  ghost function Run(p: Pool, steps: seq<Step>): Pool
    requires CanRun(p, steps)
    decreases |steps|
  {
    if steps == [] then p else Run(After(p, steps[0]), steps[1..])
  }

  /** However the CPUs' operations interleave: nothing is lost, nothing is handed out twice. */
  lemma {:induction false} EveryRunIsSafe(p: Pool, steps: seq<Step>, device: set<nat>)
    requires Safe(p, device) && CanRun(p, steps)
    ensures Safe(Run(p, steps), device) && (Coalesced(p) ==> Coalesced(Run(p, steps)))
    decreases |steps|
  {
    if steps != [] {
      if steps[0].Alloc? {
        AllocKeeps(p, steps[0], device);
      } else {
        FreeKeeps(p, steps[0], device);
      }
      EveryRunIsSafe(After(p, steps[0]), steps[1..], device);
    }
  }

  /** The blocks in use determine the free ones: taking blocks and giving the same ones back, with
      an unmount and a mount in between, leaves the free blocks as they were. */
  lemma GivenBack(p: Pool, q: Pool, device: set<nat>, x: nat)
    requires Safe(p, device) && Safe(q, device) && p.live == q.live
    ensures IsFree(p, x) <==> IsFree(q, x)
  {
    assert x in device <==> x in p.live || IsFree(p, x);
    assert x in device <==> x in q.live || IsFree(q, x);
  }

  // ---------------------------------------------------------------------------------------
  // A request
  // ---------------------------------------------------------------------------------------

  class BlockAllocator {
    /** One list for each CPU. */
    const lists: seq<FreeList>

    constructor (lists: seq<FreeList>)
      requires lists != [] && forall i :: 0 <= i < |lists| ==> lists[i].Usable()
      requires forall i, j :: 0 <= i < j < |lists| ==> lists[i] != lists[j]
      ensures Valid() && this.lists == lists
    {
      this.lists := lists;
    }

    ghost predicate Valid()
      reads this, lists
    {
      && lists != []
      && (forall i :: 0 <= i < |lists| ==> lists[i].Usable())
      && (forall i, j :: 0 <= i < j < |lists| ==> lists[i] != lists[j])
    }

    /** nova_get_candidate_free_list: the first of the fullest lists. */
    method CandidateFreeList() returns (c: nat)
      requires Valid()
      ensures c < |lists|
      ensures forall i :: 0 <= i < |lists| ==> lists[i].numFreeBlocks <= lists[c].numFreeBlocks
      ensures forall i :: 0 <= i < c ==> lists[i].numFreeBlocks < lists[c].numFreeBlocks
    {
      c := 0;
      var most := 0;
      for i := 0 to |lists|
        invariant c < |lists| && most >= 0
        invariant forall j :: 0 <= j < i ==> lists[j].numFreeBlocks <= most
        invariant if most == 0 then c == 0 else lists[c].numFreeBlocks == most
        invariant forall j :: 0 <= j < c ==> lists[j].numFreeBlocks < most
      {
        if lists[i].numFreeBlocks > most {
          c, most := i, lists[i].numFreeBlocks;
        }
      }
      forall i | 0 <= i < |lists|
        ensures lists[i].numFreeBlocks >= 0
      {
        SumNonNegative(lists[i].ranges);
      }
    }

    /** nova_new_blocks without interference: a request that its own list cannot meet goes to the
        fullest one, and after three tries gives up. `num` counts blocks. */
    method NewBlocks(cpu: nat, num: nat, btype: nat) returns (ret: int, blocknr: nat, ghost c: nat, ghost k: nat)
      requires Valid() && cpu < |lists|
      modifies lists
      ensures num == 0 || (forall i :: 0 <= i < |lists| ==> old(lists[i].numFreeBlocks) < num) ==>
                ret < 0 && forall i :: 0 <= i < |lists| ==> unchanged(lists[i])
      ensures num > 0 && (exists i :: 0 <= i < |lists| && old(lists[i].numFreeBlocks) >= num) ==>
                && c < |lists| && old(lists[c].numFreeBlocks) >= num
                && (if old(lists[cpu].numFreeBlocks) >= num then c == cpu
                    else old(forall i :: 0 <= i < |lists| ==> lists[i].numFreeBlocks <= lists[c].numFreeBlocks))
                && (ret > 0 <==>
                  btype == 0 || exists i :: old(Start(lists[c].firstNode)) <= i < |old(lists[c].ranges)|
                                            && Length(old(lists[c].ranges)[i]) >= num)
                && (ret <= 0 ==>
                  lists[c].ranges == old(lists[c].ranges)
                    && lists[c].numFreeBlocks == old(lists[c].numFreeBlocks) - num)
      ensures ret > 0 ==> c < |lists| && old(Start(lists[c].firstNode)) <= k < |old(lists[c].ranges)| && num > 0
      ensures ret > 0 && btype == 0 ==> k == old(Start(lists[c].firstNode))
      ensures ret > 0 ==>
                ret == Given(old(lists[c].ranges), k, num) && lists[c].ranges == Taken(old(lists[c].ranges), k, num)
      ensures ret > 0 ==> blocknr == old(lists[c].ranges)[k].low && 0 < ret <= num && (btype > 0 ==> ret == num)
      ensures 0 < ret < num ==> old(lists[c].ranges)[k] == Range(blocknr, blocknr + ret - 1)
      ensures ret > 0 ==> Valid() && (old(lists[c].Valid()) ==> lists[c].Valid())
      ensures forall i :: 0 <= i < |lists| && i != c ==> unchanged(lists[i])
    {
      ret, blocknr, c, k := -1, 0, 0, 0;
      if num == 0 {
        return;
      }
      var ok, id := ChooseList(cpu, num);
      if !ok {
        return;
      }
      var list := lists[id];
      c := id;
      ret, blocknr, k := list.Serve(btype, num);
    }

    /** The list that serves the request: the CPU's own, or the fullest one if that has not enough. */
    method ChooseList(cpu: nat, num: nat) returns (ok: bool, id: nat)
      requires Valid() && cpu < |lists| && num > 0
      ensures id < |lists| && (ok <==> lists[id].numFreeBlocks >= num)
      ensures ok <==> exists i :: 0 <= i < |lists| && lists[i].numFreeBlocks >= num
      ensures if lists[cpu].numFreeBlocks >= num then id == cpu
              else forall i :: 0 <= i < |lists| ==> lists[i].numFreeBlocks <= lists[id].numFreeBlocks
    {
      id := cpu;
      var retried := 0;
      while lists[id].numFreeBlocks < num
        invariant id < |lists| && 0 <= retried <= 3
        invariant retried == 0 ==> id == cpu
        invariant retried > 0 ==> lists[cpu].numFreeBlocks < num
        invariant retried > 0 ==> forall i :: 0 <= i < |lists| ==> lists[i].numFreeBlocks <= lists[id].numFreeBlocks
        decreases 3 - retried
      {
        if retried >= 3 {
          return false, id;
        }
        id := CandidateFreeList();
        retried := retried + 1;
      }
      ok := true;
    }
  }

  lemma {:induction false} SumNonNegative(rs: seq<Range>)
    requires Proper(rs)
    ensures Sum(rs) >= 0
  {
    if rs != [] {
      SumNonNegative(rs[..|rs| - 1]);
    }
  }

  /** Blocks 1, 3 and 5 are free. A request for two blocks that have to be contiguous passes the
      test for enough blocks, fails, and takes two off the count all the same. With a count of
      one, a request for two blocks is then turned down although three are free. */
  method CountIsLost() returns (a: BlockAllocator, ret: int)
    ensures ret <= 0 && |a.lists| == 1
    ensures Sum(a.lists[0].ranges) == 3 && a.lists[0].numFreeBlocks == 1
  {
    var rs := [Range(1, 1), Range(3, 3), Range(5, 5)];
    SumSplit(rs, 1);
    SumOne(rs[0]);
    SumOne(rs[2]);
    assert rs[..1] == [rs[0]] && rs[2..] == [rs[2]];
    var list := new FreeList(rs);
    a := new BlockAllocator([list]);
    assert a.lists[0].numFreeBlocks == 3;
    var blocknr;
    ghost var c, k;
    ret, blocknr, c, k := a.NewBlocks(0, 2, 1);
  }
}
