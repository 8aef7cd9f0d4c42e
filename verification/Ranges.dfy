/**
 Trees of disjoint ranges, as balloc.c keeps them for free blocks and used inode numbers: the
 search in a binary tree and what its in-order sequence of ranges says about it.
 */
module Ranges {

  datatype Range = Range(low: nat, high: nat)

  /** `a` ends before `b` begins. */
  ghost predicate Precedes(a: Range, b: Range) {
    a.high < b.low
  }

  /** `a` ends before `b` begins, and they do not touch. */
  ghost predicate Clear(a: Range, b: Range) {
    a.high + 1 < b.low
  }

  ghost predicate Proper(rs: seq<Range>) {
    forall i :: 0 <= i < |rs| ==> rs[i].low <= rs[i].high
  }

  /** Sorted, disjoint and never adjacent. */
  ghost predicate Sorted(rs: seq<Range>) {
    Proper(rs) && forall i, j {:trigger Clear(rs[i], rs[j])} :: 0 <= i < j < |rs| ==> Clear(rs[i], rs[j])
  }

  /** Sorted and disjoint; neighbours may touch. */
  ghost predicate Ordered(rs: seq<Range>) {
    Proper(rs) && forall i, j {:trigger Precedes(rs[i], rs[j])} :: 0 <= i < j < |rs| ==> Precedes(rs[i], rs[j])
  }

  lemma SortedIsOrdered(rs: seq<Range>)
    requires Sorted(rs)
    ensures Ordered(rs)
  {
    forall i, j | 0 <= i < j < |rs|
      ensures Precedes(rs[i], rs[j])
    {
      assert Clear(rs[i], rs[j]);
    }
  }

  predicate Within(r: Range, b: nat) {
    r.low <= b <= r.high
  }

  ghost predicate Has(rs: seq<Range>, b: nat) {
    exists i :: 0 <= i < |rs| && Within(rs[i], b)
  }

  function Length(r: Range): int {
    r.high - r.low + 1
  }

  function Sum(rs: seq<Range>): int {
    if rs == [] then 0 else Sum(rs[..|rs| - 1]) + Length(rs[|rs| - 1])
  }

  lemma {:induction false} SumConcat(a: seq<Range>, b: seq<Range>)
    ensures Sum(a + b) == Sum(a) + Sum(b)
  {
    if b == [] {
      assert a + b == a;
    } else {
      SumConcat(a, b[..|b| - 1]);
      assert (a + b)[..|a + b| - 1] == a + b[..|b| - 1];
    }
  }

  // ---------------------------------------------------------------------------------------
  // Binary trees
  // ---------------------------------------------------------------------------------------

  datatype Tree = Leaf | Node(left: Tree, r: Range, right: Tree)

  function Inorder(t: Tree): seq<Range> {
    match t
    case Leaf => []
    case Node(l, r, g) => Inorder(l) + [r] + Inorder(g)
  }

  function Count(t: Tree): nat {
    match t
    case Leaf => 0
    case Node(l, _, g) => Count(l) + 1 + Count(g)
  }

  lemma {:induction false} CountIs(t: Tree)
    ensures Count(t) == |Inorder(t)|
  {
    if t.Node? {
      CountIs(t.left);
      CountIs(t.right);
    }
  }

  /** nova_rbtree_compare_rangenode */
  function Compare(r: Range, low: nat): int {
    if low < r.low then -1 else if low > r.high then 1 else 0
  }

  /** `low` belongs between the ranges `gap - 1` and `gap`. */
  ghost predicate Gap(all: seq<Range>, gap: nat, low: nat) {
    && gap <= |all|
    && (gap > 0 ==> all[gap - 1].high < low)
    && (gap < |all| ==> low < all[gap].low)
  }

  /** Where the search for `low` ends: at the range with `low`, or at the last node on the way. */
  function Met(t: Tree, low: nat): (r: Range)
    requires t.Node?
  {
    if low < t.r.low then (if t.left.Node? then Met(t.left, low) else t.r)
    else if low > t.r.high then (if t.right.Node? then Met(t.right, low) else t.r)
    else t.r
  }

  /** nova_find_range_node, for every shape that rebalancing may have given to the tree: it ends
      at the range with `low`, or else at a neighbour of the gap where `low` belongs. `at` is
      the position of that node in the order. */
  method FindRangeNode(tree: Tree, low: nat) returns (hit: bool, curr: Tree, at: nat, ghost gap: nat)
    ensures curr.Leaf? <==> tree.Leaf?
    ensures curr.Node? ==> at < |Inorder(tree)| && Inorder(tree)[at] == curr.r == Met(tree, low)
    ensures hit ==> curr.Node? && Within(curr.r, low)
    ensures !hit ==> Gap(Inorder(tree), gap, low) && (curr.Node? ==> at + 1 == gap || at == gap)
  {
    ghost var all := Inorder(tree);
    var temp, from: nat := tree, 0;
    hit, curr, at := false, Leaf, 0;
    ghost var to: nat := |all|;
    StartSearch(tree, low);
    while temp.Node?
      invariant !hit && Searching(all, from, to, temp, low)
      invariant curr.Leaf? ==> temp == tree
      invariant curr.Node? ==> at < |all| && all[at] == curr.r && (at + 1 == from || at == to)
      invariant curr.Node? && temp.Leaf? ==> curr.r == Met(tree, low)
      invariant temp.Node? ==> Met(temp, low) == Met(tree, low)
      decreases temp
    {
      Descend(all, from, to, temp, low);
      curr, at := temp, from + Count(temp.left);
      var c := Compare(curr.r, low);
      if c == -1 {
        temp, to := temp.left, at;
      } else if c == 1 {
        temp, from := temp.right, at + 1;
      } else {
        hit := true;
        break;
      }
    }
    gap := from;
    if !hit {
      Ended(all, from, to, low);
    }
  }

  /** The subtree `t` holds the ranges `from` to `to` of the whole tree, and `low` belongs there. */
  ghost predicate Searching(all: seq<Range>, from: nat, to: nat, t: Tree, low: nat) {
    forall k {:trigger Unfolded(k)} :: Unfolded(k) ==>
      && from <= to <= |all| && all[from..to] == Inorder(t)
      && (from > 0 ==> all[from - 1].high < low)
      && (to < |all| ==> low < all[to].low)
  }

  /** Names a place in a proof that looks inside of Searching. */
  ghost predicate Unfolded(k: int) {
    true
  }

  lemma StartSearch(t: Tree, low: nat)
    ensures Searching(Inorder(t), 0, |Inorder(t)|, t, low)
  {
  }

  lemma Ended(all: seq<Range>, from: nat, to: nat, low: nat)
    requires Searching(all, from, to, Leaf, low)
    ensures from == to && Gap(all, from, low)
  {
    assert Unfolded(0);
    assert |all[from..to]| == to - from;
  }

  lemma Descend(all: seq<Range>, from: nat, to: nat, t: Tree, low: nat)
    requires t.Node? && Searching(all, from, to, t, low)
    ensures from + Count(t.left) < |all| && all[from + Count(t.left)] == t.r
    ensures low < t.r.low ==> Searching(all, from, from + Count(t.left), t.left, low)
    ensures low > t.r.high ==> Searching(all, from + Count(t.left) + 1, to, t.right, low)
  {
    assert Unfolded(0);
    var at := Parts(all, from, to, t);
  }

  lemma Parts(all: seq<Range>, from: nat, to: nat, t: Tree) returns (at: nat)
    requires t.Node? && from <= to <= |all| && all[from..to] == Inorder(t)
    ensures at == from + Count(t.left) && from <= at < to && all[at] == t.r
    ensures all[from..at] == Inorder(t.left) && all[at + 1..to] == Inorder(t.right)
  {
    CountIs(t.left);
    var l := Inorder(t.left);
    at := from + |l|;
    var s := all[from..to];
    assert s[..|l|] == l && s[|l|] == t.r && s[|l| + 1..] == Inorder(t.right);
    assert all[from..at] == s[..|l|] && all[at + 1..to] == s[|l| + 1..];
  }

  /** In an ordered tree the search misses only numbers that are in no range. */
  lemma GapIsFree(all: seq<Range>, gap: nat, low: nat)
    requires Ordered(all) && Gap(all, gap, low)
    ensures !Has(all, low)
  {
    forall i | 0 <= i < |all|
      ensures !Within(all[i], low)
    {
      assert i < gap - 1 ==> Precedes(all[i], all[gap - 1]);
      assert i > gap ==> Precedes(all[gap], all[i]);
    }
  }

  ghost predicate Overlaps(rs: seq<Range>, low: nat, high: nat) {
    exists b :: low <= b <= high && Has(rs, b)
  }

  /** nova_find_free_slot: the gap in which `low` to `high` is to go. An overlap is noticed if and
      only if the search ends at a range that has one of the numbers; what follows a range that
      it ends at is not looked at. */
  method FindFreeSlot(tree: Tree, low: nat, high: nat) returns (ok: bool, gap: nat)
    requires Ordered(Inorder(tree)) && low <= high
    ensures ok ==> Gap(Inorder(tree), gap, low)
    ensures ok <==> tree.Leaf? || Met(tree, low).high < low || high < Met(tree, low).low
    ensures !ok ==> Overlaps(Inorder(tree), low, high)
  {
    var hit, curr, i;
    ghost var g;
    hit, curr, i, g := FindRangeNode(tree, low);
    ghost var rs := Inorder(tree);
    if hit {
      assert Within(rs[i], low);
      assert Has(rs, low);
      return false, 0;
    }
    if curr.Leaf? {
      return true, 0;
    } else if curr.r.high < low {
      return true, i + 1;
    } else if curr.r.low > high {
      return true, i;
    } else {
      assert Has(rs, rs[i].low) by {
        assert Within(rs[i], rs[i].low);
      }
      return false, 0;
    }
  }

  /** So whether freeing 3 to 10 is refused while 5 and 6 are free depends on how the tree happens
      to be balanced. */
  lemma ShapeDecides()
    ensures var a, b := Range(1, 2), Range(5, 6);
            var t, u := Node(Node(Leaf, a, Leaf), b, Leaf), Node(Leaf, a, Node(Leaf, b, Leaf));
            && Inorder(t) == Inorder(u) == [a, b] && Ordered([a, b]) && Overlaps([a, b], 3, 10)
            && Met(t, 3).high < 3 && Within(Met(u, 3), 5)
  {
    assert Within([Range(1, 2), Range(5, 6)][1], 5);
    assert Has([Range(1, 2), Range(5, 6)], 5);
  }

  /** nova_insert_range_node: links a new leaf where `low` belongs, or fails on a range that
      contains it. */
  method InsertRangeNode(tree: Tree, n: Range) returns (ok: bool, now: Tree, ghost gap: nat)
    ensures ok ==> Gap(Inorder(tree), gap, n.low)
                   && Inorder(now) == Inorder(tree)[..gap] + [n] + Inorder(tree)[gap..]
    ensures !ok ==> Has(Inorder(tree), n.low) && now == tree
    decreases tree
  {
    match tree
    case Leaf =>
      ok, now, gap := true, Node(Leaf, n, Leaf), 0;
    case Node(l, r, g) =>
      var c := Compare(r, n.low);
      var sub;
      if c == -1 {
        ok, sub, gap := InsertRangeNode(l, n);
        now := if ok then Node(sub, r, g) else tree;
        if ok {
          InsertedLeft(Inorder(l), r, Inorder(g), n, gap);
        } else {
          HasLeft(Inorder(l), r, Inorder(g), n.low);
        }
      } else if c == 1 {
        ok, sub, gap := InsertRangeNode(g, n);
        now := if ok then Node(l, r, sub) else tree;
        if ok {
          InsertedRight(Inorder(l), r, Inorder(g), n, gap);
          gap := gap + |Inorder(l)| + 1;
        } else {
          HasRight(Inorder(l), r, Inorder(g), n.low);
        }
      } else {
        ok, now, gap := false, tree, 0;
        assert Within(Inorder(tree)[|Inorder(l)|], n.low);
      }
  }

  lemma InsertedLeft(l: seq<Range>, r: Range, g: seq<Range>, n: Range, gap: nat)
    requires Gap(l, gap, n.low) && n.low < r.low
    ensures var all := l + [r] + g;
            Gap(all, gap, n.low) && (l[..gap] + [n] + l[gap..]) + [r] + g == all[..gap] + [n] + all[gap..]
  {
    var all := l + [r] + g;
    assert all[..gap] == l[..gap] && all[gap..] == l[gap..] + [r] + g;
  }

  lemma InsertedRight(l: seq<Range>, r: Range, g: seq<Range>, n: Range, gap: nat)
    requires Gap(g, gap, n.low) && r.high < n.low
    ensures var all, k := l + [r] + g, gap + |l| + 1;
            Gap(all, k, n.low) && l + [r] + (g[..gap] + [n] + g[gap..]) == all[..k] + [n] + all[k..]
  {
    var all, k := l + [r] + g, gap + |l| + 1;
    assert all[..k] == l + [r] + g[..gap] && all[k..] == g[gap..];
    assert gap > 0 ==> all[k - 1] == g[gap - 1];
  }

  lemma HasLeft(l: seq<Range>, r: Range, g: seq<Range>, b: nat)
    requires Has(l, b)
    ensures Has(l + [r] + g, b)
  {
    var i :| 0 <= i < |l| && Within(l[i], b);
    assert (l + [r] + g)[i] == l[i];
  }

  lemma HasRight(l: seq<Range>, r: Range, g: seq<Range>, b: nat)
    requires Has(g, b)
    ensures Has(l + [r] + g, b)
  {
    var i :| 0 <= i < |g| && Within(g[i], b);
    assert (l + [r] + g)[|l| + 1 + i] == g[i];
  }
}
