/**
 The free lists of balloc.c: how freeing a run of blocks merges it with its neighbours, and how
 blocks are taken from the front of a list.
 */
module FreeLists {
  import opened Ranges

  // ---------------------------------------------------------------------------------------
  // Adding a run
  // ---------------------------------------------------------------------------------------

  predicate TouchesLeft(rs: seq<Range>, gap: nat, n: Range)
    requires gap <= |rs|
  {
    gap > 0 && rs[gap - 1].high + 1 == n.low
  }

  predicate TouchesRight(rs: seq<Range>, gap: nat, n: Range)
    requires gap <= |rs|
  {
    gap < |rs| && n.high + 1 == rs[gap].low
  }

  /** The run with what it touches on either side. */
  function Joined(rs: seq<Range>, gap: nat, n: Range): Range
    requires gap <= |rs|
  {
    Range(if TouchesLeft(rs, gap, n) then rs[gap - 1].low else n.low,
          if TouchesRight(rs, gap, n) then rs[gap].high else n.high)
  }

  function LeftOf(rs: seq<Range>, gap: nat, n: Range): seq<Range>
    requires gap <= |rs|
  {
    if TouchesLeft(rs, gap, n) then rs[..gap - 1] else rs[..gap]
  }

  function RightOf(rs: seq<Range>, gap: nat, n: Range): seq<Range>
    requires gap <= |rs|
  {
    if TouchesRight(rs, gap, n) then rs[gap + 1..] else rs[gap..]
  }

  /** The ranges once `n` has been put into the gap and merged with what it touches. */
  function Merged(rs: seq<Range>, gap: nat, n: Range): seq<Range>
    requires gap <= |rs|
  {
    LeftOf(rs, gap, n) + [Joined(rs, gap, n)] + RightOf(rs, gap, n)
  }

  /** `n` fits into the gap without overlap. */
  ghost predicate Fits(rs: seq<Range>, gap: nat, n: Range) {
    && gap <= |rs| && n.low <= n.high
    && (gap > 0 ==> rs[gap - 1].high < n.low)
    && (gap < |rs| ==> n.high < rs[gap].low)
  }

  lemma SortedJoin(a: seq<Range>, m: Range, b: seq<Range>)
    requires Sorted(a) && Sorted(b) && m.low <= m.high
    requires a != [] ==> a[|a| - 1].high + 1 < m.low
    requires b != [] ==> m.high + 1 < b[0].low
    ensures Sorted(a + [m] + b)
  {
    var all, k := a + [m] + b, |a|;
    forall i, j | 0 <= i < j < |all|
      ensures Clear(all[i], all[j])
    {
      if j < k {
        assert Clear(a[i], a[j]);
      } else if i > k {
        assert Clear(b[i - k - 1], b[j - k - 1]);
      } else {
        assert i < k - 1 ==> Clear(a[i], a[k - 1]);
        assert j > k + 1 ==> Clear(b[0], b[j - k - 1]);
      }
    }
  }

  lemma SortedParts(rs: seq<Range>, i: nat)
    requires Sorted(rs) && i <= |rs|
    ensures Sorted(rs[..i]) && Sorted(rs[i..])
  {
    var a, b := rs[..i], rs[i..];
    forall j, k | 0 <= j < k < |a|
      ensures Clear(a[j], a[k])
    {
      assert Clear(rs[j], rs[k]);
    }
    forall j, k | 0 <= j < k < |b|
      ensures Clear(b[j], b[k])
    {
      assert Clear(rs[i + j], rs[i + k]);
    }
  }

  lemma OrderedJoin(a: seq<Range>, m: Range, b: seq<Range>)
    requires Ordered(a) && Ordered(b) && m.low <= m.high
    requires a != [] ==> a[|a| - 1].high < m.low
    requires b != [] ==> m.high < b[0].low
    ensures Ordered(a + [m] + b)
  {
    var all, k := a + [m] + b, |a|;
    forall i, j | 0 <= i < j < |all|
      ensures Precedes(all[i], all[j])
    {
      if j < k {
        assert Precedes(a[i], a[j]);
      } else if i > k {
        assert Precedes(b[i - k - 1], b[j - k - 1]);
      } else {
        assert i < k - 1 ==> Precedes(a[i], a[k - 1]);
        assert j > k + 1 ==> Precedes(b[0], b[j - k - 1]);
      }
    }
  }

  lemma OrderedParts(rs: seq<Range>, i: nat)
    requires Ordered(rs) && i <= |rs|
    ensures Ordered(rs[..i]) && Ordered(rs[i..])
  {
    var a, b := rs[..i], rs[i..];
    forall j, k | 0 <= j < k < |a|
      ensures Precedes(a[j], a[k])
    {
      assert Precedes(rs[j], rs[k]);
    }
    forall j, k | 0 <= j < k < |b|
      ensures Precedes(b[j], b[k])
    {
      assert Precedes(rs[i + j], rs[i + k]);
    }
  }

  lemma MergedSorted(rs: seq<Range>, gap: nat, n: Range)
    requires Sorted(rs) && Fits(rs, gap, n)
    ensures Sorted(Merged(rs, gap, n))
  {
    var a, b := LeftOf(rs, gap, n), RightOf(rs, gap, n);
    SortedParts(rs, |a|);
    SortedParts(rs, |rs| - |b|);
    assert gap > 1 ==> Clear(rs[gap - 2], rs[gap - 1]);
    assert gap + 1 < |rs| ==> Clear(rs[gap], rs[gap + 1]);
    assert 0 < gap < |rs| ==> Clear(rs[gap - 1], rs[gap]);
    SortedJoin(a, Joined(rs, gap, n), b);
  }

  /** The same for lists whose ranges may touch. */
  lemma MergedOrdered(rs: seq<Range>, gap: nat, n: Range)
    requires Ordered(rs) && Fits(rs, gap, n)
    ensures Ordered(Merged(rs, gap, n))
  {
    var a, b := LeftOf(rs, gap, n), RightOf(rs, gap, n);
    OrderedParts(rs, |a|);
    OrderedParts(rs, |rs| - |b|);
    assert gap > 1 ==> Precedes(rs[gap - 2], rs[gap - 1]);
    assert gap + 1 < |rs| ==> Precedes(rs[gap], rs[gap + 1]);
    OrderedJoin(a, Joined(rs, gap, n), b);
  }

  lemma HasJoin(a: seq<Range>, m: Range, b: seq<Range>, x: nat)
    ensures Has(a + [m] + b, x) <==> Has(a, x) || Within(m, x) || Has(b, x)
  {
    var all := a + [m] + b;
    assert all[|a|] == m;
    if Has(all, x) {
      var i :| 0 <= i < |all| && Within(all[i], x);
      assert i < |a| ==> Within(a[i], x);
      assert i > |a| ==> Within(b[i - |a| - 1], x);
    }
    if Has(a, x) {
      HasLeft(a, m, b, x);
    }
    if Has(b, x) {
      HasRight(a, m, b, x);
    }
  }

  lemma HasSplit(rs: seq<Range>, i: nat, x: nat)
    requires i <= |rs|
    ensures Has(rs, x) <==> Has(rs[..i], x) || Has(rs[i..], x)
  {
    if Has(rs, x) {
      var k :| 0 <= k < |rs| && Within(rs[k], x);
      assert k < i ==> rs[..i][k] == rs[k];
      assert k >= i ==> rs[i..][k - i] == rs[k];
    }
    if Has(rs[i..], x) {
      var k :| 0 <= k < |rs[i..]| && Within(rs[i..][k], x);
      assert rs[i + k] == rs[i..][k];
    }
  }

  lemma HasOne(rs: seq<Range>, i: nat, x: nat)
    requires i < |rs|
    ensures Has(rs, x) <==> Has(rs[..i], x) || Within(rs[i], x) || Has(rs[i + 1..], x)
  {
    assert rs == rs[..i] + [rs[i]] + rs[i + 1..];
    HasJoin(rs[..i], rs[i], rs[i + 1..], x);
  }

  lemma MergedHas(rs: seq<Range>, gap: nat, n: Range, x: nat)
    requires Proper(rs) && Fits(rs, gap, n)
    ensures Has(Merged(rs, gap, n), x) <==> Has(rs, x) || Within(n, x)
  {
    HasJoin(LeftOf(rs, gap, n), Joined(rs, gap, n), RightOf(rs, gap, n), x);
    HasSplit(rs, gap, x);
    if TouchesLeft(rs, gap, n) {
      HasOne(rs[..gap], gap - 1, x);
      assert rs[..gap][..gap - 1] == rs[..gap - 1] && rs[..gap][gap..] == [];
    }
    if TouchesRight(rs, gap, n) {
      HasOne(rs[gap..], 0, x);
      assert rs[gap..][..0] == [] && rs[gap..][1..] == rs[gap + 1..];
    }
  }

  lemma SumOne(r: Range)
    ensures Sum([r]) == Length(r)
  {
    assert [r][..0] == [];
  }

  lemma SumSplit(rs: seq<Range>, i: nat)
    requires i < |rs|
    ensures Sum(rs) == Sum(rs[..i]) + Length(rs[i]) + Sum(rs[i + 1..])
  {
    assert rs == rs[..i] + [rs[i]] + rs[i + 1..];
    SumConcat(rs[..i] + [rs[i]], rs[i + 1..]);
    SumConcat(rs[..i], [rs[i]]);
    SumOne(rs[i]);
  }

  lemma SumJoin(a: seq<Range>, r: Range, b: seq<Range>)
    ensures Sum(a + [r] + b) == Sum(a) + Length(r) + Sum(b)
  {
    SumConcat(a + [r], b);
    SumConcat(a, [r]);
    SumOne(r);
  }

  lemma SumLeft(rs: seq<Range>, gap: nat, n: Range)
    requires gap <= |rs|
    ensures Sum(rs[..gap]) == Sum(LeftOf(rs, gap, n)) + (if TouchesLeft(rs, gap, n) then Length(rs[gap - 1]) else 0)
  {
    if TouchesLeft(rs, gap, n) {
      assert rs[..gap] == rs[..gap - 1] + [rs[gap - 1]];
      SumConcat(rs[..gap - 1], [rs[gap - 1]]);
      SumOne(rs[gap - 1]);
    }
  }

  lemma SumRight(rs: seq<Range>, gap: nat, n: Range)
    requires gap <= |rs|
    ensures Sum(rs[gap..]) == Sum(RightOf(rs, gap, n)) + (if TouchesRight(rs, gap, n) then Length(rs[gap]) else 0)
  {
    if TouchesRight(rs, gap, n) {
      assert rs[gap..] == [rs[gap]] + rs[gap + 1..];
      SumConcat([rs[gap]], rs[gap + 1..]);
      SumOne(rs[gap]);
    }
  }

  /** How much longer the merged range is than the run, on either side. */
  function Grown(rs: seq<Range>, gap: nat, n: Range): (int, int)
    requires gap <= |rs|
  {
    (if TouchesLeft(rs, gap, n) then Length(rs[gap - 1]) else 0,
     if TouchesRight(rs, gap, n) then Length(rs[gap]) else 0)
  }

  lemma JoinedLength(rs: seq<Range>, gap: nat, n: Range, l: int, r: int)
    requires gap <= |rs| && Grown(rs, gap, n) == (l, r)
    ensures Length(Joined(rs, gap, n)) == l + Length(n) + r
    ensures Sum(rs[..gap]) == Sum(LeftOf(rs, gap, n)) + l
    ensures Sum(rs[gap..]) == Sum(RightOf(rs, gap, n)) + r
  {
    SumLeft(rs, gap, n);
    SumRight(rs, gap, n);
  }

  lemma {:induction false} SumCut(rs: seq<Range>, gap: nat)
    requires gap <= |rs|
    ensures Sum(rs) == Sum(rs[..gap]) + Sum(rs[gap..])
  {
    var a, b := rs[..gap], rs[gap..];
    assert a + b == rs;
    SumConcat(a, b);
  }

  lemma MergedSum(rs: seq<Range>, gap: nat, n: Range)
    requires gap <= |rs|
    ensures Sum(Merged(rs, gap, n)) == Sum(rs) + Length(n)
  {
    var g := Grown(rs, gap, n);
    JoinedLength(rs, gap, n, g.0, g.1);
    SumCut(rs, gap);
    SumJoin(LeftOf(rs, gap, n), Joined(rs, gap, n), RightOf(rs, gap, n));
  }

  // ---------------------------------------------------------------------------------------
  // Taking blocks
  // ---------------------------------------------------------------------------------------

  /** How many of `num` blocks node `k` can give. */
  function Given(rs: seq<Range>, k: nat, num: nat): int
    requires k < |rs|
  {
    if num >= Length(rs[k]) then Length(rs[k]) else num
  }

  /** The ranges after that: the node is gone, or begins later. */
  function Taken(rs: seq<Range>, k: nat, num: nat): seq<Range>
    requires k < |rs|
  {
    if num >= Length(rs[k]) then rs[..k] + rs[k + 1..] else rs[k := Range(rs[k].low + num, rs[k].high)]
  }

  lemma TakenSorted(rs: seq<Range>, k: nat, num: nat)
    requires Sorted(rs) && k < |rs|
    ensures Sorted(Taken(rs, k, num))
  {
    var t := Taken(rs, k, num);
    forall i, j | 0 <= i < j < |t|
      ensures Clear(t[i], t[j])
    {
      if num >= Length(rs[k]) {
        var p, q := if i < k then i else i + 1, if j < k then j else j + 1;
        assert t[i] == rs[p] && t[j] == rs[q];
        assert Clear(rs[p], rs[q]);
      } else {
        assert Clear(rs[i], rs[j]);
      }
    }
  }

  lemma TakenOrdered(rs: seq<Range>, k: nat, num: nat)
    requires Ordered(rs) && k < |rs|
    ensures Ordered(Taken(rs, k, num))
  {
    var t := Taken(rs, k, num);
    forall i, j | 0 <= i < j < |t|
      ensures Precedes(t[i], t[j])
    {
      if num >= Length(rs[k]) {
        var p, q := if i < k then i else i + 1, if j < k then j else j + 1;
        assert t[i] == rs[p] && t[j] == rs[q];
        assert Precedes(rs[p], rs[q]);
      } else {
        assert Precedes(rs[i], rs[j]);
      }
    }
  }

  /** The blocks given were free, are not any more, and nothing else changes. */
  lemma TakenHas(rs: seq<Range>, k: nat, num: nat, x: nat)
    requires Ordered(rs) && k < |rs| && num > 0
    ensures var g := Given(rs, k, num);
            0 < g <= num && (Has(Taken(rs, k, num), x) <==> Has(rs, x) && !(rs[k].low <= x < rs[k].low + g))
  {
    HasOne(rs, k, x);
    OthersElsewhere(rs, k, x);
    var a, b := rs[..k], rs[k + 1..];
    if num >= Length(rs[k]) {
      var all := a + b;
      assert all[..k] == a && all[k..] == b;
      HasSplit(all, k, x);
    } else {
      var r := Range(rs[k].low + num, rs[k].high);
      assert rs[k := r] == a + [r] + b;
      HasJoin(a, r, b, x);
    }
  }

  lemma OthersElsewhere(rs: seq<Range>, k: nat, x: nat)
    requires Ordered(rs) && k < |rs|
    ensures Within(rs[k], x) ==> !Has(rs[..k], x) && !Has(rs[k + 1..], x)
  {
    var a := rs[..k];
    forall i | 0 <= i < |a|
      ensures Within(rs[k], x) ==> !Within(a[i], x)
    {
      assert Precedes(rs[i], rs[k]);
    }
    var b := rs[k + 1..];
    forall i | 0 <= i < |b|
      ensures Within(rs[k], x) ==> !Within(b[i], x)
    {
      assert Precedes(rs[k], rs[k + 1 + i]);
    }
  }

  lemma TakenSum(rs: seq<Range>, k: nat, num: nat)
    requires k < |rs|
    ensures Sum(Taken(rs, k, num)) == Sum(rs) - Given(rs, k, num)
  {
    SumSplit(rs, k);
    if num >= Length(rs[k]) {
      SumConcat(rs[..k], rs[k + 1..]);
    } else {
      ShortenedSum(rs, k, Range(rs[k].low + num, rs[k].high));
    }
  }

  lemma ShortenedSum(rs: seq<Range>, k: nat, r: Range)
    requires k < |rs|
    ensures Sum(rs[k := r]) == Sum(rs[..k]) + Length(r) + Sum(rs[k + 1..])
  {
    var a, b := rs[..k], rs[k + 1..];
    assert rs[k := r] == a + [r] + b;
    SumJoin(a, r, b);
  }

  // ---------------------------------------------------------------------------------------
  // A free list
  // ---------------------------------------------------------------------------------------

  function Spine(rs: seq<Range>): (t: Tree)
    ensures Inorder(t) == rs
  {
    if rs == [] then Leaf else Node(Leaf, rs[0], Spine(rs[1..]))
  }

  /** A tree with these ranges, of whatever shape rebalancing has left it in. */
  method AnyShape(rs: seq<Range>) returns (t: Tree)
    ensures Inorder(t) == rs
  {
    t := *;
    if Inorder(t) != rs {
      t := Spine(rs);
    }
  }

  const NONE: int := -1
  const GONE: int := -2

  function Leftmost(rs: seq<Range>): int {
    if rs == [] then NONE else 0
  }

  /** The run joins the node that first_node points to with its left neighbour, which stays. */
  ghost predicate Erased(rs: seq<Range>, gap: nat, n: Range, first: int)
    requires gap <= |rs|
  {
    TouchesLeft(rs, gap, n) && TouchesRight(rs, gap, n) && first == gap
  }

  /** Where the search for blocks begins. */
  function Start(first: int): int {
    if first == NONE then 0 else first
  }

  /** Where first_node points after blocks were taken from node `k`. */
  ghost function FirstAfter(rs: seq<Range>, first: int, k: nat, num: nat): int
    requires k < |rs|
  {
    if first == k && num >= Length(rs[k]) then (if k + 1 < |rs| then k else NONE) else first
  }

  class FreeList {
    /** The nodes of the tree, in order. */
    var ranges: seq<Range>
    /** Position of the node that first_node points to; NONE if it is null, and GONE if that node
        has been taken out of the tree. */
    var firstNode: int
    var numFreeBlocks: int
    var numBlocknode: int

    /** Block 0 is never in a list. After a mount that moved ranges here ranges may touch, and the
        first node need not be the leftmost one. */
    ghost predicate Usable()
      reads this
    {
      && Ordered(ranges) && !Has(ranges, 0)
      && NONE <= firstNode < |ranges|
      && numFreeBlocks == Sum(ranges)
      && numBlocknode == |ranges|
    }

    /** The first node is the leftmost one. */
    ghost predicate Valid()
      reads this
    {
      Usable() && firstNode == Leftmost(ranges)
    }

    /** A list with the ranges that were found to be free. */
    constructor (rs: seq<Range>)
      requires Ordered(rs) && !Has(rs, 0)
      ensures Valid() && ranges == rs
    {
      ranges := rs;
      firstNode := Leftmost(rs);
      numFreeBlocks := Sum(rs);
      numBlocknode := |rs|;
    }

    /** A list as a mount leaves it, with first_node where it happens to be. */
    constructor Loaded(rs: seq<Range>, first: int)
      requires Ordered(rs) && !Has(rs, 0) && NONE <= first < |rs|
      ensures Usable() && ranges == rs && firstNode == first
    {
      ranges := rs;
      firstNode := first;
      numFreeBlocks := Sum(rs);
      numBlocknode := |rs|;
    }

    /** nova_free_blocks. A run that is free already in part is either refused or ruins the list; and
        so does one that joins the first node to the node before it, because the first of the two
        is kept. */
    method FreeBlocks(blocknr: nat, blocks: int) returns (ok: bool, gap: nat)
      requires Usable() && blocknr > 0
      modifies this
      ensures blocks <= 0 ==> !ok
      ensures !ok ==> unchanged(this)
      ensures blocks > 0 ==>
                var n := Range(blocknr, blocknr + blocks - 1);
                && (!ok ==> Overlaps(old(ranges), n.low, n.high))
                && (ok ==>
                  Gap(old(ranges), gap, n.low) && ranges == Merged(old(ranges), gap, n)
                    && numFreeBlocks == old(numFreeBlocks) + blocks)
                && (ok ==>
                  (Usable() <==> !Overlaps(old(ranges), n.low, n.high) && !Erased(old(ranges), gap, n, old(firstNode))))
                && (ok && old(Valid()) ==> (Valid() <==> !Overlaps(old(ranges), n.low, n.high)))
      ensures ok && Usable() ==>
                && (Sorted(old(ranges)) ==> Sorted(ranges))
                && forall x: nat :: Has(ranges, x) <==> Has(old(ranges), x) || blocknr <= x < blocknr + blocks
    {
      if blocks <= 0 {
        return false, 0;
      }
      var n := Range(blocknr, blocknr + blocks - 1);
      var tree := AnyShape(ranges);
      ok, gap := FindFreeSlot(tree, n.low, n.high);
      if !ok {
        return;
      }
      OrderedIffApart(ranges, gap, n);
      if !Overlaps(ranges, n.low, n.high) {
        GapFits(ranges, gap, n);
        Freed(ranges, gap, n);
      }
      MergedSum(ranges, gap, n);
      AddRun(n, gap);
    }

    /** nova_new_blocks once it has the list: a first node that is null is set to the leftmost one.
        That is never due in a list whose first node is leftmost. */
    method Serve(btype: nat, num: nat) returns (ret: int, newBlock: nat, ghost k: nat)
      requires Usable() && numFreeBlocks >= num > 0
      modifies this
      ensures ret > 0 <==>
                btype == 0
                || exists i :: old(Start(firstNode)) <= i < |old(ranges)| && Length(old(ranges)[i]) >= num
      ensures ret > 0 ==> old(Start(firstNode)) <= k < |old(ranges)| && newBlock == old(ranges)[k].low
      ensures ret > 0 ==> ret == Given(old(ranges), k, num) && ranges == Taken(old(ranges), k, num)
      ensures ret > 0 ==> 0 < ret <= num && (btype > 0 ==> ret == num) && (btype == 0 ==> k == old(Start(firstNode)))
      ensures ret > 0 ==> firstNode == FirstAfter(old(ranges), old(Start(firstNode)), k, num)
      ensures ret > 0 ==> Usable() && (old(Valid()) ==> Valid() && old(firstNode) != NONE)
      ensures ret <= 0 ==> ranges == old(ranges) && numFreeBlocks == old(numFreeBlocks) - num
    {
      assert ranges != [];
      if firstNode == NONE {
        firstNode := 0;
      }
      ret, newBlock, k := AllocBlocks(btype, num);
    }

    /** nova_alloc_blocks_in_free_list: an ordinary request takes what the first node has; a
        request for larger pages needs a node that has it all. The count goes down even if
        there is none. */
    method AllocBlocks(btype: nat, num: nat) returns (ret: int, newBlock: nat, ghost k: nat)
      requires Usable() && firstNode >= 0 && num > 0
      modifies this
      ensures ret > 0 ==> old(firstNode) <= k < |old(ranges)| && newBlock == old(ranges)[k].low
      ensures ret > 0 ==> ret == Given(old(ranges), k, num) && ranges == Taken(old(ranges), k, num)
      ensures ret > 0 ==> Usable() && newBlock > 0 && (Sorted(old(ranges)) ==> Sorted(ranges))
      ensures ret > 0 ==> firstNode == FirstAfter(old(ranges), old(firstNode), k, num) && (old(Valid()) ==> Valid())
      ensures btype == 0 ==> ret > 0 && k == old(firstNode)
      ensures btype > 0 ==>
                (ret > 0 <==> exists i :: old(firstNode) <= i < |old(ranges)| && Length(old(ranges)[i]) >= num)
      ensures btype > 0 && ret > 0 ==>
                ret == num && forall i :: old(firstNode) <= i < k ==> Length(old(ranges)[i]) < num
      ensures ret <= 0 ==> ranges == old(ranges) && firstNode == old(firstNode)
      ensures ret <= 0 ==> numFreeBlocks == old(numFreeBlocks) - num && !Usable()
    {
      var i: nat := firstNode;
      var found, count := false, num;
      newBlock, k := 0, 0;
      while i < |ranges| && !found
        invariant firstNode <= i <= |ranges| && unchanged(this)
        invariant btype == 0 ==> i == firstNode
        invariant forall j :: firstNode <= j < i ==> Length(ranges[j]) < num
        invariant found ==> i < |ranges| && (btype > 0 ==> Length(ranges[i]) >= num)
        decreases |ranges| - i, if found then 0 else 1
      {
        if btype > 0 && num > Length(ranges[i]) {
          i := i + 1;
        } else {
          found := true;
        }
      }
      if found {
        k, newBlock := i, ranges[i].low;
        TakenFacts(ranges, i, num);
        count := TakeNode(i, num);
      }
      numFreeBlocks := numFreeBlocks - count;
      ret := if found then count else -1;
    }

    /** Takes up to `num` blocks from node `i`: all of it, or its front. */
    method TakeNode(i: nat, num: nat) returns (count: int)
      requires Usable() && 0 <= firstNode <= i < |ranges| && num > 0
      modifies `ranges, `firstNode, `numBlocknode
      ensures ranges == Taken(old(ranges), i, num) && 0 < count == Given(old(ranges), i, num)
      ensures firstNode == FirstAfter(old(ranges), old(firstNode), i, num) && numBlocknode == |ranges|
    {
      var curr := ranges[i];
      if num >= Length(curr) {
        if i == firstNode {
          firstNode := if i + 1 < |ranges| then i else NONE;
        }
        ranges := ranges[..i] + ranges[i + 1..];
        numBlocknode := numBlocknode - 1;
        count := Length(curr);
      } else {
        ranges := ranges[i := Range(curr.low + num, curr.high)];
        count := num;
      }
    }

    /** The merge itself. */
    method AddRun(n: Range, gap: nat)
      requires Usable() && Gap(ranges, gap, n.low) && n.low <= n.high
      modifies this
      ensures ranges == Merged(old(ranges), gap, n) && numBlocknode == |ranges|
      ensures Erased(old(ranges), gap, n, old(firstNode)) <==> firstNode == GONE
      ensures GONE <= firstNode < |ranges| && (old(Valid()) ==> firstNode == Leftmost(ranges))
      ensures numFreeBlocks == old(numFreeBlocks) + Length(n)
    {
      MergedCases(ranges, gap, n);
      if TouchesLeft(ranges, gap, n) && TouchesRight(ranges, gap, n) {
        var joined := Range(ranges[gap - 1].low, ranges[gap].high);
        ranges := ranges[..gap - 1] + [joined] + ranges[gap + 1..];
        firstNode := if firstNode > gap then firstNode - 1 else if firstNode == gap then GONE else firstNode;
        numBlocknode := numBlocknode - 1;
      } else if TouchesLeft(ranges, gap, n) {
        ranges := ranges[gap - 1 := Range(ranges[gap - 1].low, ranges[gap - 1].high + Length(n))];
      } else if TouchesRight(ranges, gap, n) {
        ranges := ranges[gap := Range(ranges[gap].low - Length(n), ranges[gap].high)];
      } else {
        InsertRun(n, gap);
      }
      numFreeBlocks := numFreeBlocks + Length(n);
    }

    /** A node of its own for the run. */
    method InsertRun(n: Range, gap: nat)
      requires Usable() && Gap(ranges, gap, n.low)
      modifies `ranges, `firstNode, `numBlocknode
      ensures ranges == old(ranges)[..gap] + [n] + old(ranges)[gap..] && numBlocknode == |ranges|
      ensures NONE <= firstNode < |ranges| && (old(Valid()) ==> firstNode == 0)
    {
      GapIsFree(ranges, gap, n.low);
      var tree := AnyShape(ranges);
      var ok, now;
      ghost var g;
      ok, now, g := InsertRangeNode(tree, n);
      InsertPlace(ranges, gap, g, n);
      ranges := Inorder(now);
      firstNode := if firstNode >= gap then firstNode + 1 else firstNode;
      if gap == 0 {
        firstNode := gap;
      }
      numBlocknode := numBlocknode + 1;
    }
  }

  lemma MergedCases(rs: seq<Range>, gap: nat, n: Range)
    requires Proper(rs) && Gap(rs, gap, n.low) && n.low <= n.high
    ensures TouchesLeft(rs, gap, n) && TouchesRight(rs, gap, n) ==>
              Merged(rs, gap, n) == rs[..gap - 1] + [Range(rs[gap - 1].low, rs[gap].high)] + rs[gap + 1..]
    ensures TouchesLeft(rs, gap, n) && !TouchesRight(rs, gap, n) ==>
              Merged(rs, gap, n) == rs[gap - 1 := Range(rs[gap - 1].low, rs[gap - 1].high + Length(n))]
    ensures !TouchesLeft(rs, gap, n) && TouchesRight(rs, gap, n) ==>
              rs[gap].low >= Length(n) && Merged(rs, gap, n) == rs[gap := Range(rs[gap].low - Length(n), rs[gap].high)]
    ensures !TouchesLeft(rs, gap, n) && !TouchesRight(rs, gap, n) ==>
              Merged(rs, gap, n) == rs[..gap] + [n] + rs[gap..]
  {
  }

  lemma GapFits(rs: seq<Range>, gap: nat, n: Range)
    requires Gap(rs, gap, n.low) && n.low <= n.high && !Overlaps(rs, n.low, n.high) && Proper(rs)
    ensures Fits(rs, gap, n)
  {
    if gap < |rs| {
      assert Has(rs, rs[gap].low) by {
        assert Within(rs[gap], rs[gap].low);
      }
    }
  }

  /** Adding a run keeps the order if and only if none of it is there already. */
  lemma OrderedIffApart(rs: seq<Range>, gap: nat, n: Range)
    requires Ordered(rs) && Gap(rs, gap, n.low) && n.low <= n.high
    ensures Ordered(Merged(rs, gap, n)) <==> !Overlaps(rs, n.low, n.high)
  {
    if Overlaps(rs, n.low, n.high) {
      var b :| n.low <= b <= n.high && Has(rs, b);
      var i :| 0 <= i < |rs| && Within(rs[i], b);
      assert i < gap - 1 ==> Precedes(rs[i], rs[gap - 1]);
      assert i > gap ==> Precedes(rs[gap], rs[i]);
      var all, k := Merged(rs, gap, n), |LeftOf(rs, gap, n)|;
      assert all[k] == Joined(rs, gap, n) && all[k + 1] == rs[gap];
      assert !Precedes(all[k], all[k + 1]);
    } else {
      GapFits(rs, gap, n);
      MergedOrdered(rs, gap, n);
    }
  }

  /** There is only one gap where a run fits. */
  lemma InsertPlace(rs: seq<Range>, gap: nat, g: nat, n: Range)
    requires Ordered(rs) && Gap(rs, gap, n.low) && Gap(rs, g, n.low)
    ensures g == gap
  {
    assert gap < g ==> g - 1 == gap || Precedes(rs[gap], rs[g - 1]);
    assert g < gap ==> gap - 1 == g || Precedes(rs[g], rs[gap - 1]);
  }

  lemma Freed(rs: seq<Range>, gap: nat, n: Range)
    requires Ordered(rs) && Fits(rs, gap, n)
    ensures Ordered(Merged(rs, gap, n)) && (Sorted(rs) ==> Sorted(Merged(rs, gap, n)))
    ensures Sum(Merged(rs, gap, n)) == Sum(rs) + Length(n)
    ensures forall x :: Has(Merged(rs, gap, n), x) <==> Has(rs, x) || Within(n, x)
  {
    MergedOrdered(rs, gap, n);
    if Sorted(rs) {
      MergedSorted(rs, gap, n);
    }
    MergedSum(rs, gap, n);
    forall x
      ensures Has(Merged(rs, gap, n), x) <==> Has(rs, x) || Within(n, x)
    {
      MergedHas(rs, gap, n, x);
    }
  }

  lemma TakenFacts(rs: seq<Range>, k: nat, num: nat)
    requires Ordered(rs) && k < |rs| && num > 0 && !Has(rs, 0)
    ensures Ordered(Taken(rs, k, num)) && (Sorted(rs) ==> Sorted(Taken(rs, k, num)))
    ensures !Has(Taken(rs, k, num), 0) && rs[k].low > 0
    ensures Sum(Taken(rs, k, num)) == Sum(rs) - Given(rs, k, num)
  {
    TakenOrdered(rs, k, num);
    if Sorted(rs) {
      TakenSorted(rs, k, num);
    }
    TakenHas(rs, k, num, 0);
    TakenSum(rs, k, num);
    assert !Within(rs[k], 0);
  }
}
