/**
 Saving the free lists to a log at unmount and loading them at the next mount (bbuild.c).
 */
module SavedLists {
  import opened Ranges
  import opened FreeLists
  import opened Allocator

  /** A log page holds 254 ranges of 16 bytes. */
  const RANGENODE_PER_PAGE: nat := 254

  /** All lists, one after the other. */
  function Flat(lists: seq<seq<Range>>): seq<Range> {
    if lists == [] then [] else Flat(lists[..|lists| - 1]) + lists[|lists| - 1]
  }

  lemma FlatSnoc(lists: seq<seq<Range>>, rs: seq<Range>)
    ensures Flat(lists + [rs]) == Flat(lists) + rs
  {
    assert (lists + [rs])[..|lists|] == lists;
  }

  lemma FlatStep(lists: seq<seq<Range>>, i: nat)
    requires i < |lists|
    ensures Flat(lists[..i + 1]) == Flat(lists[..i]) + lists[i]
  {
    assert lists[..i + 1] == lists[..i] + [lists[i]];
    FlatSnoc(lists[..i], lists[i]);
  }

  function Nodes(lists: seq<seq<Range>>): nat {
    |Flat(lists)|
  }

  /** How many pages the save asks for. */
  function PagesFor(nodes: nat): nat {
    nodes / RANGENODE_PER_PAGE + if nodes % RANGENODE_PER_PAGE != 0 then 1 else 0
  }

  lemma PagesSuffice(nodes: nat)
    ensures nodes <= PagesFor(nodes) * RANGENODE_PER_PAGE
  {
  }

  // ---------------------------------------------------------------------------------------
  // Saving
  // ---------------------------------------------------------------------------------------

  /** Every page but the last is full. */
  ghost predicate Packed(log: seq<seq<Range>>) {
    && log != []
    && (forall i :: 0 <= i < |log| - 1 ==> |log[i]| == RANGENODE_PER_PAGE)
    && |log[|log| - 1]| <= RANGENODE_PER_PAGE
  }

  lemma {:induction false} FullLength(log: seq<seq<Range>>)
    requires forall i :: 0 <= i < |log| ==> |log[i]| == RANGENODE_PER_PAGE
    ensures |Flat(log)| == |log| * RANGENODE_PER_PAGE
  {
    if log != [] {
      FullLength(log[..|log| - 1]);
    }
  }

  /** A log of at most `pages` pages that holds the ranges `rs`. */
  ghost predicate Logs(log: seq<seq<Range>>, pages: nat, rs: seq<Range>) {
    forall k {:trigger Unfolded(k)} :: Unfolded(k) ==> Packed(log) && |log| <= pages && Flat(log) == rs
  }

  lemma LogsParts(log: seq<seq<Range>>, pages: nat, rs: seq<Range>)
    requires Logs(log, pages, rs)
    ensures Packed(log) && |log| <= pages && Flat(log) == rs
  {
    assert Unfolded(0);
  }

  /** nova_append_range_node_entry: on to the next page when this one is full, if there is one. */
  method AppendEntry(log: seq<seq<Range>>, pages: nat, r: Range, ghost rs: seq<Range>)
    returns (ok: bool, now: seq<seq<Range>>)
    requires Logs(log, pages, rs)
    ensures ok <==> |rs| < pages * RANGENODE_PER_PAGE
    ensures Logs(now, pages, if ok then rs + [r] else rs)
  {
    LogsParts(log, pages, rs);
    var k := |log| - 1;
    FullLength(log[..k]);
    if |log[k]| == RANGENODE_PER_PAGE {
      if |log| == pages {
        return false, log;
      }
      now := log + [[r]];
      FlatSnoc(log, [r]);
    } else {
      now := log[..k] + [log[k] + [r]];
      FlatSnoc(log[..k], log[k] + [r]);
      assert Flat(log[..k]) + (log[k] + [r]) == Flat(log) + [r];
      assert |log| * RANGENODE_PER_PAGE <= pages * RANGENODE_PER_PAGE;
    }
    ok := true;
  }

  /** nova_save_range_nodes_to_log: one list. */
  method SaveList(was: seq<seq<Range>>, pages: nat, rs: seq<Range>, ghost all: seq<Range>)
    returns (log: seq<seq<Range>>)
    requires Logs(was, pages, all) && |all| + |rs| <= pages * RANGENODE_PER_PAGE
    ensures Logs(log, pages, all + rs)
  {
    log := was;
    ghost var saved := all;
    for j := 0 to |rs|
      invariant saved == all + rs[..j] && Logs(log, pages, saved)
    {
      var ok;
      ok, log := AppendEntry(log, pages, rs[j], saved);
      saved := saved + [rs[j]];
      assert saved == all + rs[..j + 1];
    }
    assert saved == all + rs;
  }

  /** nova_save_blocknode_mappings_to_log: with enough pages every range is saved, in order. A request
      for no page fails, so that nothing is saved when nothing is free. */
  method Save(lists: seq<seq<Range>>, pages: nat) returns (ok: bool, log: seq<seq<Range>>)
    requires Nodes(lists) <= pages * RANGENODE_PER_PAGE
    ensures ok <==> pages > 0
    ensures ok ==> Packed(log) && |log| <= pages && Flat(log) == Flat(lists)
    ensures !ok ==> log == [] && Flat(lists) == []
  {
    if pages == 0 {
      return false, [];
    }
    ok, log := true, [[]];
    assert Logs(log, pages, []) by {
      assert log[..0] == [];
    }
    for i := 0 to |lists|
      invariant Logs(log, pages, Flat(lists[..i]))
    {
      FlatStep(lists, i);
      FlatGrows(lists, i + 1);
      log := SaveList(log, pages, lists[i], Flat(lists[..i]));
    }
    assert lists[..|lists|] == lists;
    LogsParts(log, pages, Flat(lists));
  }

  lemma {:induction false} FlatGrows(lists: seq<seq<Range>>, i: nat)
    requires i <= |lists|
    ensures |Flat(lists[..i])| <= Nodes(lists)
    decreases |lists| - i
  {
    if i == |lists| {
      assert lists[..i] == lists;
    } else {
      FlatStep(lists, i);
      FlatGrows(lists, i + 1);
    }
  }

  // ---------------------------------------------------------------------------------------
  // Loading
  // ---------------------------------------------------------------------------------------

  /** get_cpuid: which list a block belongs to; the last one is the shared list. */
  function ListOf(block: nat, per: nat, cpus: nat): nat
    requires per > 0
  {
    if block / per >= cpus then cpus else block / per
  }

  /** Every range is in the list of its first block. */
  ghost predicate AtHome(lists: seq<seq<Range>>, per: nat, cpus: nat)
    requires per > 0
  {
    forall c, i :: 0 <= c < |lists| && 0 <= i < |lists[c]| ==> ListOf(lists[c][i].low, per, cpus) == c
  }

  /** The ranges of a log that go to list `c`. */
  function For(rs: seq<Range>, c: nat, per: nat, cpus: nat): seq<Range>
    requires per > 0
  {
    if rs == [] then []
    else
      var k := |rs| - 1;
      For(rs[..k], c, per, cpus) + (if ListOf(rs[k].low, per, cpus) == c then [rs[k]] else [])
  }

  lemma {:induction false} ForConcat(a: seq<Range>, b: seq<Range>, c: nat, per: nat, cpus: nat)
    requires per > 0
    ensures For(a + b, c, per, cpus) == For(a, c, per, cpus) + For(b, c, per, cpus)
  {
    if b == [] {
      assert a + b == a;
    } else {
      var k := |b| - 1;
      ForConcat(a, b[..k], c, per, cpus);
      assert (a + b)[..|a + b| - 1] == a + b[..k];
    }
  }

  lemma {:induction false} ForAll(rs: seq<Range>, c: nat, d: nat, per: nat, cpus: nat)
    requires per > 0 && forall i :: 0 <= i < |rs| ==> ListOf(rs[i].low, per, cpus) == d
    ensures For(rs, c, per, cpus) == if c == d then rs else []
  {
    if rs != [] {
      ForAll(rs[..|rs| - 1], c, d, per, cpus);
    }
  }

  /** Sorting the saved ranges by list gives back the lists. */
  lemma {:induction false} ForFlat(lists: seq<seq<Range>>, n: nat, c: nat, per: nat, cpus: nat)
    requires per > 0 && AtHome(lists, per, cpus) && n <= |lists|
    ensures For(Flat(lists[..n]), c, per, cpus) == if c < n then lists[c] else []
  {
    if n > 0 {
      var k := n - 1;
      var a, b := Flat(lists[..k]), lists[k];
      ForFlat(lists, k, c, per, cpus);
      assert Flat(lists[..n]) == a + b by {
        FlatStep(lists, k);
      }
      ForConcat(a, b, c, per, cpus);
      assert forall i :: 0 <= i < |b| ==> ListOf(lists[k][i].low, per, cpus) == k;
      ForAll(b, c, k, per, cpus);
    }
  }

  ghost predicate Miss(a: Range, b: Range) {
    a.high < b.low || b.high < a.low
  }

  /** No block is in two of the ranges. */
  ghost predicate Disjoint(rs: seq<Range>) {
    Proper(rs) && forall i, j {:trigger Miss(rs[i], rs[j])} :: 0 <= i < j < |rs| ==> Miss(rs[i], rs[j])
  }

  /** List `now` holds the ranges that were loaded into it, in order. */
  ghost predicate Holds(now: seq<Range>, loaded: seq<Range>) {
    && Ordered(now)
    && (forall r :: r in now <==> r in loaded)
  }

  /** nova_insert_blocktree, for a range that misses all others. */
  method Insert(rs: seq<Range>, n: Range) returns (now: seq<Range>)
    requires Ordered(rs) && n.low <= n.high && forall i :: 0 <= i < |rs| ==> Miss(rs[i], n)
    ensures Ordered(now) && forall r :: r in now <==> r in rs || r == n
    ensures Sorted(rs) && (rs != [] ==> rs[|rs| - 1].high < n.low) ==> now == rs + [n]
  {
    var tree := AnyShape(rs);
    assert !Has(rs, n.low);
    var ok, t;
    ghost var g;
    ok, t, g := InsertRangeNode(tree, n);
    now := Inorder(t);
    Inserted(rs, g, n);
    if Sorted(rs) && (rs != [] ==> rs[|rs| - 1].high < n.low) {
      InsertPlace(rs, |rs|, g, n);
      assert now == rs + [n];
    }
  }

  lemma Inserted(rs: seq<Range>, g: nat, n: Range)
    requires Ordered(rs) && n.low <= n.high && Gap(rs, g, n.low) && forall i :: 0 <= i < |rs| ==> Miss(rs[i], n)
    ensures var now := rs[..g] + [n] + rs[g..]; Ordered(now) && forall r :: r in now <==> r in rs || r == n
  {
    OrderedParts(rs, g);
    OrderedJoin(rs[..g], n, rs[g..]);
    assert rs == rs[..g] + rs[g..];
  }

  lemma ForStep(all: seq<Range>, k: nat, d: nat, per: nat, cpus: nat)
    requires per > 0 && k < |all|
    ensures For(all[..k + 1], d, per, cpus)
            == For(all[..k], d, per, cpus) + (if ListOf(all[k].low, per, cpus) == d then [all[k]] else [])
  {
    assert all[..k + 1][..k] == all[..k];
  }

  /** What is loaded so far misses what comes next. */
  lemma NextMisses(all: seq<Range>, k: nat, c: nat, per: nat, cpus: nat, r: Range)
    requires per > 0 && Disjoint(all) && k < |all| && r in For(all[..k], c, per, cpus)
    ensures Miss(r, all[k])
  {
    ForIsFrom(all[..k], c, per, cpus, r);
    var i :| 0 <= i < k && all[..k][i] == r;
    assert Miss(all[i], all[k]);
  }

  /** In a list that is at home it comes before. */
  lemma NextFollows(all: seq<Range>, k: nat, c: nat, per: nat, cpus: nat, rs: seq<Range>)
    requires per > 0 && k < |all| && c == ListOf(all[k].low, per, cpus) && Sorted(For(all, c, per, cpus))
    requires rs == For(all[..k], c, per, cpus)
    ensures Sorted(rs) && (rs != [] ==> rs[|rs| - 1].high < all[k].low)
  {
    var whole := For(all, c, per, cpus);
    assert rs + [all[k]] <= whole by {
      ForStep(all, k, c, per, cpus);
      assert all == all[..k + 1] + all[k + 1..];
      ForConcat(all[..k + 1], all[k + 1..], c, per, cpus);
    }
    assert whole[..|rs|] == rs && whole[|rs|] == all[k];
    SortedParts(whole, |rs|);
    assert rs != [] ==> Clear(whole[|rs| - 1], whole[|rs|]);
  }

  lemma {:induction false} ForIsFrom(rs: seq<Range>, c: nat, per: nat, cpus: nat, r: Range)
    requires per > 0
    ensures r in For(rs, c, per, cpus) <==> r in rs && ListOf(r.low, per, cpus) == c
  {
    if rs != [] {
      var k := |rs| - 1;
      ForIsFrom(rs[..k], c, per, cpus, r);
      assert rs == rs[..k] + [rs[k]];
    }
  }

  /** Page `i` of a log among all its ranges. */
  lemma PageAt(log: seq<seq<Range>>, i: nat)
    requires i < |log|
    ensures var k := |Flat(log[..i])|;
            k + |log[i]| == |Flat(log[..i + 1])| <= |Flat(log)| && log[i] == Flat(log)[k..k + |log[i]|]
  {
    FlatStep(log, i);
    FlatPrefix(log, i + 1);
  }

  lemma {:induction false} FlatPrefix(log: seq<seq<Range>>, i: nat)
    requires i <= |log|
    ensures Flat(log[..i]) <= Flat(log)
    decreases |log| - i
  {
    if i == |log| {
      assert log[..i] == log;
    } else {
      FlatStep(log, i);
      FlatPrefix(log, i + 1);
    }
  }

  /** A pointer to a node. */
  datatype Pointer = Null | To(node: Range)

  /** The first of the nodes in the order in which they were loaded. */
  function FirstOf(loaded: seq<Range>): Pointer {
    if loaded == [] then Null else To(loaded[0])
  }

  /** What has been loaded from the first `k` ranges, and where first_node points in each list. */
  ghost predicate Loaded(now: seq<seq<Range>>, first: seq<Pointer>, all: seq<Range>, k: nat, per: nat, cpus: nat) {
    forall i {:trigger Unfolded(i)} :: Unfolded(i) ==> LoadedLists(now, first, all, k, per, cpus)
  }

  lemma LoadedParts(now: seq<seq<Range>>, first: seq<Pointer>, all: seq<Range>, k: nat, per: nat, cpus: nat)
    requires Loaded(now, first, all, k, per, cpus)
    ensures LoadedLists(now, first, all, k, per, cpus)
  {
    assert Unfolded(0);
  }

  ghost predicate LoadedLists(now: seq<seq<Range>>, first: seq<Pointer>, all: seq<Range>, k: nat, per: nat, cpus: nat) {
    && per > 0 && |now| == |first| == cpus + 1 && k <= |all|
    && (forall c :: 0 <= c <= cpus ==> first[c] == FirstOf(For(all[..k], c, per, cpus)))
    && (forall c :: 0 <= c <= cpus ==> Holds(now[c], For(all[..k], c, per, cpus)))
    && (forall c :: 0 <= c <= cpus && Sorted(For(all, c, per, cpus)) ==> now[c] == For(all[..k], c, per, cpus))
  }

  lemma LoadedStep(lists: seq<seq<Range>>, first: seq<Pointer>, now: seq<seq<Range>>, first': seq<Pointer>,
                   all: seq<Range>, k: nat, c: nat, per: nat, cpus: nat)
    requires LoadedLists(lists, first, all, k, per, cpus) && Disjoint(all) && k < |all|
    requires c == ListOf(all[k].low, per, cpus)
    requires |now| == cpus + 1 && forall d :: 0 <= d <= cpus && d != c ==> now[d] == lists[d]
    requires first' == if lists[c] == [] then first[c := To(all[k])] else first
    requires Ordered(now[c]) && forall r :: r in now[c] <==> r in lists[c] || r == all[k]
    requires Sorted(For(all, c, per, cpus)) ==> now[c] == lists[c] + [all[k]]
    ensures LoadedLists(now, first', all, k + 1, per, cpus)
  {
    forall d | 0 <= d <= cpus
      ensures Holds(now[d], For(all[..k + 1], d, per, cpus))
      ensures first'[d] == FirstOf(For(all[..k + 1], d, per, cpus))
      ensures Sorted(For(all, d, per, cpus)) ==> now[d] == For(all[..k + 1], d, per, cpus)
    {
      ForStep(all, k, d, per, cpus);
      assert Holds(lists[d], For(all[..k], d, per, cpus));
      SameEmpty(lists[d], For(all[..k], d, per, cpus));
    }
  }

  lemma SameEmpty(now: seq<Range>, loaded: seq<Range>)
    requires forall r :: r in now <==> r in loaded
    ensures now == [] <==> loaded == []
  {
    assert now != [] ==> now[0] in loaded;
    assert loaded != [] ==> loaded[0] in now;
  }

  /** One entry goes to the list of its first block. */
  method LoadEntry(lists: seq<seq<Range>>, was: seq<Pointer>, r: Range, per: nat, cpus: nat, ghost all: seq<Range>,
                   ghost k: nat)
    returns (now: seq<seq<Range>>, first: seq<Pointer>, ghost next: nat)
    requires per > 0 && |lists| == |was| == cpus + 1
    requires Loaded(lists, was, all, k, per, cpus) && Disjoint(all) && k < |all| && r == all[k]
    ensures |now| == |first| == cpus + 1 && next == k + 1 && Loaded(now, first, all, next, per, cpus)
  {
    var c := ListOf(r.low, per, cpus);
    MayInsert(lists, was, all, k, c, per, cpus);
    var rs := Insert(lists[c], r);
    first := was;
    if lists[c] == [] {
      first := was[c := To(r)];
    }
    now := lists[c := rs];
    LoadedParts(lists, was, all, k, per, cpus);
    LoadedStep(lists, was, now, first, all, k, c, per, cpus);
    next := k + 1;
  }

  lemma MayInsert(lists: seq<seq<Range>>, first: seq<Pointer>, all: seq<Range>, k: nat, c: nat, per: nat, cpus: nat)
    requires per > 0 && |lists| == cpus + 1
    requires Loaded(lists, first, all, k, per, cpus) && Disjoint(all) && k < |all| && c == ListOf(all[k].low, per, cpus)
    ensures Ordered(lists[c]) && forall i :: 0 <= i < |lists[c]| ==> Miss(lists[c][i], all[k])
    ensures Sorted(For(all, c, per, cpus)) ==>
              Sorted(lists[c]) && (lists[c] != [] ==> lists[c][|lists[c]| - 1].high < all[k].low)
  {
    LoadedParts(lists, first, all, k, per, cpus);
    var rs := For(all[..k], c, per, cpus);
    assert Holds(lists[c], rs);
    forall i | 0 <= i < |lists[c]|
      ensures Miss(lists[c][i], all[k])
    {
      assert lists[c][i] in rs;
      NextMisses(all, k, c, per, cpus, lists[c][i]);
    }
    if Sorted(For(all, c, per, cpus)) {
      assert lists[c] == rs;
      NextFollows(all, k, c, per, cpus, rs);
    }
  }

  method LoadPage(lists: seq<seq<Range>>, was: seq<Pointer>, page: seq<Range>, per: nat, cpus: nat,
                  ghost all: seq<Range>, ghost k: nat, ghost stop: nat)
    returns (now: seq<seq<Range>>, first: seq<Pointer>)
    requires per > 0 && |lists| == |was| == cpus + 1 && Loaded(lists, was, all, k, per, cpus) && Disjoint(all)
    requires stop == k + |page| <= |all| && page == all[k..stop]
    ensures |now| == |first| == cpus + 1 && Loaded(now, first, all, stop, per, cpus)
  {
    now, first := lists, was;
    ghost var at := k;
    for j := 0 to |page|
      invariant at == k + j && |now| == |first| == cpus + 1 && Loaded(now, first, all, at, per, cpus)
    {
      now, first, at := LoadEntry(now, first, page[j], per, cpus, all, at);
    }
  }

  /** nova_init_blockmap_from_inode: loads any log of disjoint ranges. Every range ends up in the
      list of its first block, and first_node of a list points at the range that was loaded into
      it first. */
  method Load(log: seq<seq<Range>>, per: nat, cpus: nat) returns (now: seq<seq<Range>>, first: seq<Pointer>)
    requires per > 0 && Disjoint(Flat(log))
    ensures |now| == |first| == cpus + 1
    ensures forall c :: 0 <= c <= cpus ==> first[c] == FirstOf(For(Flat(log), c, per, cpus))
    ensures forall c :: 0 <= c <= cpus ==> Holds(now[c], For(Flat(log), c, per, cpus))
    ensures forall c :: 0 <= c <= cpus && Sorted(For(Flat(log), c, per, cpus)) ==>
              now[c] == For(Flat(log), c, per, cpus)
  {
    ghost var all, k := Flat(log), 0;
    now, first := seq(cpus + 1, _ => []), seq(cpus + 1, _ => Null);
    for i := 0 to |log|
      invariant k == |Flat(log[..i])| && |now| == |first| == cpus + 1 && Loaded(now, first, all, k, per, cpus)
    {
      PageAt(log, i);
      ghost var stop := k + |log[i]|;
      now, first := LoadPage(now, first, log[i], per, cpus, all, k, stop);
      k := stop;
    }
    assert log[..|log|] == log;
    assert all[..|all|] == all;
    LoadedParts(now, first, all, k, per, cpus);
  }

  // ---------------------------------------------------------------------------------------
  // The first node
  // ---------------------------------------------------------------------------------------

  ghost predicate LowestFirst(loaded: seq<Range>) {
    forall i :: 0 <= i < |loaded| ==> loaded[0].low <= loaded[i].low
  }

  /** The node that was loaded first is the leftmost one if and only if no other begins before it. */
  lemma FirstIsLeftmostIff(now: seq<Range>, loaded: seq<Range>)
    requires Holds(now, loaded)
    ensures FirstOf(loaded) == FirstOf(now) <==> LowestFirst(loaded)
  {
    SameEmpty(now, loaded);
    if loaded != [] {
      assert now[0] in loaded;
      var k :| 0 <= k < |loaded| && loaded[k] == now[0];
      assert loaded[0] in now;
      var j :| 0 <= j < |now| && now[j] == loaded[0];
      assert 0 < j ==> Precedes(now[0], now[j]);
      forall i | 0 <= i < |loaded|
        ensures now[0].low <= loaded[i].low
      {
        assert loaded[i] in now;
        var m :| 0 <= m < |now| && now[m] == loaded[i];
        assert 0 < m ==> Precedes(now[0], now[m]);
      }
    }
  }

  /** So it is in lists whose ranges are all at home. */
  lemma AtHomeFirst(lists: seq<seq<Range>>, c: nat, per: nat, cpus: nat)
    requires per > 0 && |lists| == cpus + 1 && c <= cpus && AtHome(lists, per, cpus) && Ordered(lists[c])
    ensures LowestFirst(For(Flat(lists), c, per, cpus))
  {
    assert lists[..|lists|] == lists;
    ForFlat(lists, |lists|, c, per, cpus);
    var rs := lists[c];
    forall i | 0 <= i < |rs|
      ensures rs[0].low <= rs[i].low
    {
      assert 0 < i ==> Precedes(rs[0], rs[i]);
    }
  }

  lemma OrderedRest(a: seq<Range>)
    requires Ordered(a) && a != []
    ensures Ordered(a[1..]) && a[0] !in a[1..] && forall r :: r in a[1..] <==> r in a && r != a[0]
  {
    var b := a[1..];
    assert a == [a[0]] + b;
    forall i, j | 0 <= i < j < |b|
      ensures Precedes(b[i], b[j])
    {
      assert Precedes(a[i + 1], a[j + 1]);
    }
    forall i | 0 <= i < |b|
      ensures b[i] != a[0]
    {
      assert Precedes(a[0], a[i + 1]);
    }
  }

  /** There is only one way to put ranges in order. */
  lemma {:induction false} OneOrder(a: seq<Range>, b: seq<Range>)
    requires Ordered(a) && Ordered(b) && forall r :: r in a <==> r in b
    ensures a == b
  {
    SameEmpty(a, b);
    if a != [] {
      assert a[0] in b;
      assert b[0] in a;
      var j :| 0 <= j < |b| && b[j] == a[0];
      var i :| 0 <= i < |a| && a[i] == b[0];
      assert 0 < j ==> Precedes(b[0], b[j]);
      assert 0 < i ==> Precedes(a[0], a[i]);
      OrderedRest(a);
      OrderedRest(b);
      OneOrder(a[1..], b[1..]);
      assert a == [a[0]] + a[1..] && b == [b[0]] + b[1..];
    }
  }

  // Lists of 100 blocks. The blocks 95 to 105 are freed in one run, six of them are taken again, and
  // block 100 is freed.

  const TAIL_END := Range(101, 105)
  const ALONE := Range(100, 100)
  const REST := Range(106, 199)

  function StraddleSteps(): seq<Step> {
    [Free(0, 0, Range(95, 105)), Alloc(0, 0, 6), Free(1, 0, ALONE)]
  }

  function Straddled(): seq<seq<Range>> {
    [[TAIL_END], [ALONE, REST], []]
  }

  lemma StraddleRuns(p: Pool)
    requires p.lists == [[], [REST], []] && p.live == Blocks(95, 11)
    ensures CanRun(p, StraddleSteps()) && Run(p, StraddleSteps()).lists == Straddled()
  {
    var steps := StraddleSteps();
    assert Enabled(p, steps[0]);
    var a := After(p, steps[0]);
    assert Merged([], 0, Range(95, 105)) == [Range(95, 105)];
    assert a.lists == [[Range(95, 105)], [REST], []];
    assert Enabled(a, steps[1]);
    var b := After(a, steps[1]);
    assert Taken([Range(95, 105)], 0, 6) == [TAIL_END];
    assert b.lists == [[TAIL_END], [REST], []];
    assert steps[1..][0] == steps[1] && steps[1..][1..] == steps[2..] && steps[2..][0] == steps[2];
    assert Enabled(b, steps[2]) by {
      assert Among(100, 95, 6);
    }
    var c := After(b, steps[2]);
    assert Merged([REST], 0, ALONE) == [ALONE, REST];
    assert c.lists == Straddled();
    assert steps[2..][1..] == [];
    assert CanRun(c, []);
    assert CanRun(b, steps[2..]) && Run(b, steps[2..]) == c;
    assert CanRun(a, steps[1..]) && Run(a, steps[1..]) == c;
  }

  lemma FlatOfThree(a: seq<Range>, b: seq<Range>, c: seq<Range>)
    ensures Flat([a, b, c]) == a + b + c
  {
    FlatSnoc([], a);
    FlatSnoc([a], b);
    FlatSnoc([a, b], c);
    assert [] + [a] == [a] && [a] + [b] == [a, b] && [a, b] + [c] == [a, b, c];
  }

  lemma StraddledLog(all: seq<Range>)
    requires all == [TAIL_END, ALONE, REST]
    ensures Flat(Straddled()) == all && Disjoint(all) && For(all, 1, 100, 2) == all
  {
    FlatOfThree([TAIL_END], [ALONE, REST], []);
    assert Disjoint(all) by {
      assert forall i, j :: 0 <= i < j < |all| ==> Miss(all[i], all[j]);
    }
    ForAll(all, 1, 1, 100, 2);
  }

  /** After an unmount and a mount block 100 lies before the first node of its list. Two requests take
      what lies behind, and the first node is null although a block is free. */
  method FirstNodeNotLeftmost() returns (now: seq<seq<Range>>, first: seq<Pointer>, list: FreeList)
    ensures |now| == |first| == 3 && now[1] == [ALONE, TAIL_END, REST] && first[1] == To(TAIL_END)
    ensures list.Usable() && list.ranges == [ALONE] && list.firstNode == NONE && list.numFreeBlocks == 1
  {
    ghost var all := [TAIL_END, ALONE, REST];
    StraddledLog(all);
    var ok;
    ok, now, first := RoundTrip(Straddled(), 1, 100, 2);
    StraddledOrder(now[1], all);
    list := TakeBehindFirst(now[1]);
  }

  lemma StraddledOrder(now: seq<Range>, all: seq<Range>)
    requires all == [TAIL_END, ALONE, REST] && Holds(now, all)
    ensures now == [ALONE, TAIL_END, REST] && Ordered(now)
  {
    var rs := [ALONE, TAIL_END, REST];
    assert Ordered(rs) by {
      assert forall i, j :: 0 <= i < j < |rs| ==> Precedes(rs[i], rs[j]);
    }
    OneOrder(now, rs);
  }

  method TakeBehindFirst(rs: seq<Range>) returns (list: FreeList)
    requires rs == [ALONE, TAIL_END, REST] && Ordered(rs)
    ensures list.Usable() && list.ranges == [ALONE] && list.firstNode == NONE && list.numFreeBlocks == 1
  {
    list := new FreeList.Loaded(rs, 1);
    var ret, block;
    ghost var k;
    ThreeNodes();
    ret, block, k := list.Serve(0, 5);
    assert list.ranges == [ALONE, REST];
    ret, block, k := list.Serve(0, 94);
    assert list.ranges == [ALONE];
  }

  lemma ThreeNodes()
    ensures Sum([ALONE, TAIL_END, REST]) == 100 && Sum([ALONE, REST]) == 95 && Sum([ALONE]) == 1
  {
    SumOne(ALONE);
    assert [ALONE, REST][..1] == [ALONE];
    assert [ALONE, TAIL_END][..1] == [ALONE];
    assert [ALONE, TAIL_END, REST][..2] == [ALONE, TAIL_END];
  }

  // ---------------------------------------------------------------------------------------
  // The round trip
  // ---------------------------------------------------------------------------------------

  /** A block is free after the load exactly if it was when the lists were saved. */
  lemma SameFreeBlocks(now: seq<seq<Range>>, all: seq<Range>, per: nat, cpus: nat, x: nat)
    requires per > 0 && |now| == cpus + 1
    requires forall c :: 0 <= c <= cpus ==> Holds(now[c], For(all, c, per, cpus))
    ensures (exists c :: 0 <= c <= cpus && Has(now[c], x)) <==> Has(all, x)
  {
    if c :| 0 <= c <= cpus && Has(now[c], x) {
      var i :| 0 <= i < |now[c]| && Within(now[c][i], x);
      assert Holds(now[c], For(all, c, per, cpus));
      assert now[c][i] in For(all, c, per, cpus);
      ForIsFrom(all, c, per, cpus, now[c][i]);
      var k :| 0 <= k < |all| && all[k] == now[c][i];
    }
    if Has(all, x) {
      var k :| 0 <= k < |all| && Within(all[k], x);
      var c := ListOf(all[k].low, per, cpus);
      ForIsFrom(all, c, per, cpus, all[k]);
      assert Holds(now[c], For(all, c, per, cpus));
      assert all[k] in now[c];
      var i :| 0 <= i < |now[c]| && now[c][i] == all[k];
      assert Has(now[c], x);
    }
  }

  /** Lists in which every range is at home come back unchanged. */
  lemma SameLists(lists: seq<seq<Range>>, now: seq<seq<Range>>, per: nat, cpus: nat)
    requires per > 0 && |lists| == |now| == cpus + 1 && AtHome(lists, per, cpus)
    requires forall c :: 0 <= c <= cpus ==> Sorted(lists[c])
    requires forall c :: 0 <= c <= cpus && Sorted(For(Flat(lists), c, per, cpus)) ==>
               now[c] == For(Flat(lists), c, per, cpus)
    ensures now == lists
  {
    assert lists[..|lists|] == lists;
    forall c | 0 <= c <= cpus
      ensures now[c] == lists[c]
    {
      ForFlat(lists, |lists|, c, per, cpus);
    }
  }

  lemma FirstNodes(lists: seq<seq<Range>>, now: seq<seq<Range>>, first: seq<Pointer>, per: nat, cpus: nat)
    requires per > 0 && |lists| == |now| == |first| == cpus + 1
    requires forall c :: 0 <= c <= cpus ==> first[c] == FirstOf(For(Flat(lists), c, per, cpus))
    requires forall c :: 0 <= c <= cpus ==> Holds(now[c], For(Flat(lists), c, per, cpus))
    ensures forall c :: 0 <= c <= cpus ==>
              (first[c] == FirstOf(now[c]) <==> LowestFirst(For(Flat(lists), c, per, cpus)))
    ensures AtHome(lists, per, cpus) ==>
              forall c :: 0 <= c <= cpus && Ordered(lists[c]) ==> first[c] == FirstOf(now[c])
  {
    forall c | 0 <= c <= cpus
      ensures first[c] == FirstOf(now[c]) <==> LowestFirst(For(Flat(lists), c, per, cpus))
      ensures AtHome(lists, per, cpus) && Ordered(lists[c]) ==> LowestFirst(For(Flat(lists), c, per, cpus))
    {
      FirstIsLeftmostIff(now[c], For(Flat(lists), c, per, cpus));
      if AtHome(lists, per, cpus) && Ordered(lists[c]) {
        AtHomeFirst(lists, c, per, cpus);
      }
    }
  }

  /** Unmount and mount. */
  method RoundTrip(lists: seq<seq<Range>>, pages: nat, per: nat, cpus: nat)
    returns (ok: bool, now: seq<seq<Range>>, first: seq<Pointer>)
    requires per > 0 && |lists| == cpus + 1 && Disjoint(Flat(lists))
    requires Nodes(lists) <= pages * RANGENODE_PER_PAGE
    ensures |now| == |first| == cpus + 1 && (ok <==> pages > 0)
    ensures forall c :: 0 <= c <= cpus ==> first[c] == FirstOf(For(Flat(lists), c, per, cpus))
    ensures forall c :: 0 <= c <= cpus ==> Holds(now[c], For(Flat(lists), c, per, cpus))
    ensures forall c :: 0 <= c <= cpus ==>
              (first[c] == FirstOf(now[c]) <==> LowestFirst(For(Flat(lists), c, per, cpus)))
    ensures AtHome(lists, per, cpus) ==>
              forall c :: 0 <= c <= cpus && Ordered(lists[c]) ==> first[c] == FirstOf(now[c])
    ensures forall x :: (exists c :: 0 <= c <= cpus && Has(now[c], x)) <==> Has(Flat(lists), x)
    ensures AtHome(lists, per, cpus) && (forall c :: 0 <= c <= cpus ==> Sorted(lists[c])) ==> now == lists
  {
    var log;
    ok, log := Save(lists, pages);
    now, first := Load(log, per, cpus);
    FirstNodes(lists, now, first, per, cpus);
    forall x: nat
      ensures (exists c :: 0 <= c <= cpus && Has(now[c], x)) <==> Has(Flat(lists), x)
    {
      SameFreeBlocks(now, Flat(lists), per, cpus, x);
    }
    if AtHome(lists, per, cpus) && forall c :: 0 <= c <= cpus ==> Sorted(lists[c]) {
      SameLists(lists, now, per, cpus);
    }
  }

  /** Taking blocks never adds a node, so the pages counted before they are taken suffice. */
  lemma TakingAddsNoNode(lists: seq<seq<Range>>, c: nat, k: nat, num: nat)
    requires c < |lists| && k < |lists[c]|
    ensures Nodes(lists[c := Taken(lists[c], k, num)]) <= Nodes(lists) <= PagesFor(Nodes(lists)) * RANGENODE_PER_PAGE
  {
    NodesOf(lists, c);
    var now := lists[c := Taken(lists[c], k, num)];
    NodesOf(now, c);
    assert now[..c] == lists[..c] && now[c + 1..] == lists[c + 1..];
    PagesSuffice(Nodes(lists));
  }

  lemma NodesOf(lists: seq<seq<Range>>, c: nat)
    requires c < |lists|
    ensures Nodes(lists) == Nodes(lists[..c]) + |lists[c]| + Nodes(lists[c + 1..])
  {
    FlatStep(lists, c);
    assert lists == lists[..c + 1] + lists[c + 1..];
    FlatConcat(lists[..c + 1], lists[c + 1..]);
  }

  lemma {:induction false} FlatConcat(a: seq<seq<Range>>, b: seq<seq<Range>>)
    ensures Flat(a + b) == Flat(a) + Flat(b)
  {
    if b == [] {
      assert a + b == a;
    } else {
      var k := |b| - 1;
      var c, p := b[..k], b[k];
      FlatConcat(a, c);
      assert b == c + [p] && a + b == (a + c) + [p];
      FlatSnoc(c, p);
      FlatSnoc(a + c, p);
      assert Flat(a) + (Flat(c) + p) == Flat(a) + Flat(c) + p;
    }
  }

  /** No run of allocations adds a node. */
  lemma {:induction false} TakesAddNoNode(p: Pool, takes: seq<Step>)
    requires CanRun(p, takes) && forall i :: 0 <= i < |takes| ==> takes[i].Alloc?
    ensures Nodes(Run(p, takes).lists) <= Nodes(p.lists)
    decreases |takes|
  {
    if takes != [] {
      var st := takes[0];
      TakingAddsNoNode(p.lists, st.c, st.k, st.num);
      assert forall i :: 0 <= i < |takes[1..]| ==> takes[1..][i] == takes[i + 1];
      TakesAddNoNode(After(p, st), takes[1..]);
    }
  }

  /** Where a saved range comes from. */
  lemma {:induction false} FlatSource(lists: seq<seq<Range>>, r: Range)
    ensures r in Flat(lists) <==> exists c :: 0 <= c < |lists| && r in lists[c]
  {
    if lists != [] {
      var k := |lists| - 1;
      FlatSource(lists[..k], r);
      assert lists == lists[..k] + [lists[k]];
      if c :| 0 <= c < k && r in lists[..k][c] {
        assert r in lists[c];
      }
      if c :| 0 <= c < |lists| && r in lists[c] {
        assert c < k ==> r in lists[..k][c];
      }
    }
  }

  lemma FlatHas(lists: seq<seq<Range>>, x: nat)
    ensures Has(Flat(lists), x) <==> exists c :: 0 <= c < |lists| && Has(lists[c], x)
  {
    if Has(Flat(lists), x) {
      var i :| 0 <= i < |Flat(lists)| && Within(Flat(lists)[i], x);
      FlatSource(lists, Flat(lists)[i]);
      var c :| 0 <= c < |lists| && Flat(lists)[i] in lists[c];
      assert Has(lists[c], x);
    }
    if c :| 0 <= c < |lists| && Has(lists[c], x) {
      var i :| 0 <= i < |lists[c]| && Within(lists[c][i], x);
      FlatSource(lists, lists[c][i]);
      var k :| 0 <= k < |Flat(lists)| && Flat(lists)[k] == lists[c][i];
    }
  }

  /** Ranges of a safe pool that share a block are one and the same. */
  lemma OneRange(p: Pool, device: set<nat>, r: Range, t: Range, x: nat)
    requires Safe(p, device) && r in Flat(p.lists) && t in Flat(p.lists) && Within(r, x) && Within(t, x)
    ensures r == t
  {
    FlatSource(p.lists, r);
    FlatSource(p.lists, t);
    var c :| 0 <= c < |p.lists| && r in p.lists[c];
    var d :| 0 <= d < |p.lists| && t in p.lists[d];
    assert Has(p.lists[c], x) && Has(p.lists[d], x);
    var i :| 0 <= i < |p.lists[c]| && p.lists[c][i] == r;
    var j :| 0 <= j < |p.lists[c]| && p.lists[c][j] == t;
    assert i < j ==> Precedes(p.lists[c][i], p.lists[c][j]);
    assert j < i ==> Precedes(p.lists[c][j], p.lists[c][i]);
  }

  /** What is saved from a safe pool can be loaded: no block is in two of the ranges. */
  lemma {:induction false} SafeIsDisjoint(p: Pool, device: set<nat>, n: nat)
    requires Safe(p, device) && n <= |p.lists|
    ensures Disjoint(Flat(p.lists[..n]))
  {
    if n > 0 {
      SafeIsDisjoint(p, device, n - 1);
      FlatStep(p.lists, n - 1);
      var a, b := Flat(p.lists[..n - 1]), p.lists[n - 1];
      forall i, j | 0 <= i < j < |a + b|
        ensures Miss((a + b)[i], (a + b)[j])
      {
        if j < |a| {
          assert Miss(a[i], a[j]);
        } else if i >= |a| {
          assert Precedes(b[i - |a|], b[j - |a|]);
        } else {
          ListsMiss(p, device, n - 1, a[i], b[j - |a|]);
        }
      }
    }
  }

  lemma ListsMiss(p: Pool, device: set<nat>, n: nat, r: Range, t: Range)
    requires Safe(p, device) && n < |p.lists| && r in Flat(p.lists[..n]) && t in p.lists[n]
    ensures Miss(r, t)
  {
    FlatSource(p.lists[..n], r);
    var c :| 0 <= c < n && r in p.lists[..n][c];
    var x := if r.low < t.low then t.low else r.low;
    if !Miss(r, t) {
      assert Has(p.lists[c], x) by {
        var i :| 0 <= i < |p.lists[c]| && p.lists[c][i] == r;
        assert Within(p.lists[c][i], x);
      }
      var j :| 0 <= j < |p.lists[n]| && p.lists[n][j] == t;
      assert Within(p.lists[n][j], x);
    }
  }

  /** Loading a safe pool gives a safe pool with the same free blocks. */
  lemma LoadedIsSafe(q: Pool, now: seq<seq<Range>>, device: set<nat>, per: nat, cpus: nat)
    requires Safe(q, device) && per > 0 && |now| == cpus + 1
    requires forall c :: 0 <= c <= cpus ==> Holds(now[c], For(Flat(q.lists), c, per, cpus))
    ensures Safe(Pool(now, q.live), device)
  {
    var all, t := Flat(q.lists), Pool(now, q.live);
    forall x: nat
      ensures IsFree(t, x) <==> IsFree(q, x)
    {
      SameFreeBlocks(now, all, per, cpus, x);
      FlatHas(q.lists, x);
    }
    forall c, d, x | 0 <= c < d < |now| && Has(now[c], x)
      ensures !Has(now[d], x)
    {
      if Has(now[d], x) {
        OneHome(q, now, device, per, cpus, c, d, x);
      }
    }
  }

  lemma OneHome(q: Pool, now: seq<seq<Range>>, device: set<nat>, per: nat, cpus: nat, c: nat, d: nat, x: nat)
    requires Safe(q, device) && per > 0 && |now| == cpus + 1 && c <= cpus && d <= cpus
    requires forall c :: 0 <= c <= cpus ==> Holds(now[c], For(Flat(q.lists), c, per, cpus))
    requires Has(now[c], x) && Has(now[d], x)
    ensures c == d
  {
    var i :| 0 <= i < |now[c]| && Within(now[c][i], x);
    var j :| 0 <= j < |now[d]| && Within(now[d][j], x);
    assert now[c][i] in For(Flat(q.lists), c, per, cpus) && now[d][j] in For(Flat(q.lists), d, per, cpus);
    ForIsFrom(Flat(q.lists), c, per, cpus, now[c][i]);
    ForIsFrom(Flat(q.lists), d, per, cpus, now[d][j]);
    OneRange(q, device, now[c][i], now[d][j], x);
  }

  /** The whole of unmount and mount: pages for the log are taken (`takes`), the lists are saved to
      them and loaded into `now`, and the pages are given back (`gives`). Then the same blocks are
      free as before, and the pages counted before the first was taken were enough. */
  lemma RemountRestores(p: Pool, takes: seq<Step>, q: Pool, now: seq<seq<Range>>, gives: seq<Step>, device: set<nat>,
                        per: nat, cpus: nat)
    requires Safe(p, device) && CanRun(p, takes) && (forall i :: 0 <= i < |takes| ==> takes[i].Alloc?)
    requires q == Run(p, takes)
    requires per > 0 && |now| == cpus + 1
    requires forall c :: 0 <= c <= cpus ==> Holds(now[c], For(Flat(q.lists), c, per, cpus))
    requires CanRun(Pool(now, q.live), gives) && Run(Pool(now, q.live), gives).live == p.live
    ensures Nodes(q.lists) <= PagesFor(Nodes(p.lists)) * RANGENODE_PER_PAGE
    ensures Disjoint(Flat(q.lists))
    ensures forall x :: IsFree(Run(Pool(now, q.live), gives), x) <==> IsFree(p, x)
  {
    EveryRunIsSafe(p, takes, device);
    TakesAddNoNode(p, takes);
    PagesSuffice(Nodes(p.lists));
    assert q.lists[..|q.lists|] == q.lists;
    SafeIsDisjoint(q, device, |q.lists|);
    LoadedIsSafe(q, now, device, per, cpus);
    EveryRunIsSafe(Pool(now, q.live), gives, device);
    forall x: nat
      ensures IsFree(Run(Pool(now, q.live), gives), x) <==> IsFree(p, x)
    {
      GivenBack(p, Run(Pool(now, q.live), gives), device, x);
    }
  }
}
