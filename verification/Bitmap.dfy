/**
 Rebuilding the free lists from the bitmap of used blocks after a crash (bbuild.c).
 */
module Bitmap {
  import opened Ranges
  import opened FreeLists

  /** The blocks from `lo` up to but not including `hi` belong to one list. */
  datatype Span = Span(lo: nat, hi: nat)

  /** The spans of the lists follow each other and end with the bitmap. */
  ghost predicate Tiled(spans: seq<Span>, bits: nat) {
    && spans != [] && spans[|spans| - 1].hi == bits
    && (forall i :: 0 <= i < |spans| ==> spans[i].lo <= spans[i].hi)
    && (forall i :: 0 <= i < |spans| - 1 ==> spans[i].hi == spans[i + 1].lo)
  }

  /** find_next_bit and find_next_zero_bit */
  method FindNext(bitmap: seq<bool>, value: bool, end: nat, start: nat) returns (next: nat)
    requires start <= end <= |bitmap|
    ensures start <= next <= end
    ensures next < end ==> bitmap[next] == value
    ensures forall i :: start <= i < next ==> bitmap[i] != value
  {
    next := start;
    while next < end && bitmap[next] != value
      invariant start <= next <= end
      invariant forall i :: start <= i < next ==> bitmap[i] != value
    {
      next := next + 1;
    }
  }

  /** `rs` are the maximal runs of unset bits from `lo` up to `to`. */
  ghost predicate FreeRuns(rs: seq<Range>, bitmap: seq<bool>, lo: nat, to: nat) {
    && to <= |bitmap| && Sorted(rs)
    && (forall x: nat :: Has(rs, x) <==> lo <= x < to && !bitmap[x])
  }

  lemma RunAdded(rs: seq<Range>, bitmap: seq<bool>, lo: nat, from: nat, to: nat, next: nat)
    requires FreeRuns(rs, bitmap, lo, from) && lo <= from <= to < next <= |bitmap|
    requires forall i :: from <= i < to ==> bitmap[i]
    requires forall i :: to <= i < next ==> !bitmap[i]
    requires from > lo ==> bitmap[from - 1] || from < to
    ensures FreeRuns(rs + [Range(to, next - 1)], bitmap, lo, next)
  {
    var n := Range(to, next - 1);
    forall i | 0 <= i < |rs|
      ensures Clear(rs[i], n)
    {
      assert Within(rs[i], rs[i].high);
      assert Has(rs, rs[i].high);
      assert rs[i].high < from && !bitmap[rs[i].high];
    }
    SortedJoin(rs, n, []);
    assert rs + [n] + [] == rs + [n];
    forall x: nat
      ensures Has(rs + [n], x) <==> lo <= x < next && !bitmap[x]
    {
      HasJoin(rs, n, [], x);
    }
  }

  lemma NothingAdded(rs: seq<Range>, bitmap: seq<bool>, lo: nat, from: nat, to: nat)
    requires FreeRuns(rs, bitmap, lo, from) && lo <= from <= to <= |bitmap|
    requires forall i :: from <= i < to ==> bitmap[i]
    ensures FreeRuns(rs, bitmap, lo, to)
  {
  }

  /** nova_insert_blocknode_map, for a range behind all others. */
  method InsertLast(rs: seq<Range>, n: Range) returns (now: seq<Range>)
    requires Sorted(rs) && (rs != [] ==> rs[|rs| - 1].high < n.low)
    ensures now == rs + [n]
  {
    var tree := AnyShape(rs);
    var ok, t;
    ghost var g;
    SortedIsOrdered(rs);
    GapIsFree(rs, |rs|, n.low);
    ok, t, g := InsertRangeNode(tree, n);
    InsertPlace(rs, |rs|, g, n);
    now := Inorder(t);
    assert rs[..|rs|] + [n] + rs[|rs|..] == rs + [n];
  }

  ghost predicate Built(lists: seq<seq<Range>>, bitmap: seq<bool>, spans: seq<Span>, c: nat) {
    && |lists| == |spans| && c <= |spans|
    && (forall i :: 0 <= i < c ==> FreeRuns(lists[i], bitmap, spans[i].lo, spans[i].hi))
    && (forall i :: c < i < |spans| ==> lists[i] == [])
  }

  lemma LastBelow(rs: seq<Range>, bitmap: seq<bool>, lo: nat, to: nat)
    requires FreeRuns(rs, bitmap, lo, to)
    ensures rs != [] ==> rs[|rs| - 1].high < to
  {
    if rs != [] {
      var r := rs[|rs| - 1];
      assert Within(r, r.high);
      assert Has(rs, r.high);
    }
  }

  lemma Tiles(spans: seq<Span>, bits: nat, c: nat)
    requires Tiled(spans, bits) && c < |spans|
    ensures spans[c].hi <= bits
    ensures spans[c].hi == bits ==> forall i :: c < i < |spans| ==> spans[i].lo == spans[i].hi == bits
    ensures spans[c].hi < bits ==> c + 1 < |spans|
    decreases |spans| - c
  {
    if c + 1 < |spans| {
      Tiles(spans, bits, c + 1);
    }
  }

  lemma NoRuns(bitmap: seq<bool>, lo: nat)
    requires lo <= |bitmap|
    ensures FreeRuns([], bitmap, lo, lo)
  {
  }

  /** __nova_build_blocknode_map: the scan ends, and afterwards each list holds exactly the
      maximal runs of unset bits of its own span. */
  method BuildBlocknodeMap(bitmap: seq<bool>, spans: seq<Span>) returns (lists: seq<seq<Range>>)
    requires Tiled(spans, |bitmap|)
    ensures |lists| == |spans|
    ensures forall i :: 0 <= i < |spans| ==> FreeRuns(lists[i], bitmap, spans[i].lo, spans[i].hi)
  {
    var c: nat := 0;
    lists := seq(|spans|, _ => []);
    var start, end := spans[c].lo, spans[c].hi;
    Tiles(spans, |bitmap|, 0);
    NoRuns(bitmap, start);
    while true
      invariant c < |spans| && Built(lists, bitmap, spans, c)
      invariant end == spans[c].hi <= |bitmap| && spans[c].lo <= start <= end
      invariant FreeRuns(lists[c], bitmap, spans[c].lo, start)
      invariant start > spans[c].lo ==> start < end && bitmap[start]
      decreases |spans| - c, end - start
    {
      var low, rs;
      low, start, rs := ScanRun(bitmap, lists[c], spans[c].lo, start, end);
      lists := lists[c := rs];
      if start == |bitmap| {
        break;
      }
      if start == end {
        Tiles(spans, |bitmap|, c);
        c := c + 1;
        start, end := spans[c].lo, spans[c].hi;
        Tiles(spans, |bitmap|, c);
        NoRuns(bitmap, start);
      }
    }
    Tiles(spans, |bitmap|, c);
    forall i | c < i < |spans|
      ensures FreeRuns(lists[i], bitmap, spans[i].lo, spans[i].hi)
    {
      NoRuns(bitmap, spans[i].lo);
    }
  }

  /** The next run of unset bits in a span, if there is one, goes to its list. */
  method ScanRun(bitmap: seq<bool>, rs: seq<Range>, lo: nat, start: nat, end: nat)
    returns (low: nat, next: nat, now: seq<Range>)
    requires lo <= start <= end <= |bitmap| && FreeRuns(rs, bitmap, lo, start)
    requires start > lo ==> start < end && bitmap[start]
    ensures start <= next <= end && FreeRuns(now, bitmap, lo, next)
    ensures next < end ==> next > start && bitmap[next]
  {
    low := FindNext(bitmap, false, end, start);
    if low == end {
      NothingAdded(rs, bitmap, lo, start, end);
      return low, end, rs;
    }
    next := FindNext(bitmap, true, end, low);
    LastBelow(rs, bitmap, lo, start);
    RunAdded(rs, bitmap, lo, start, low, next);
    now := InsertLast(rs, Range(low, next - 1));
  }

  lemma {:induction false} SpanOf(spans: seq<Span>, bits: nat, c: nat, x: nat) returns (i: nat)
    requires Tiled(spans, bits) && c < |spans| && spans[c].lo <= x < bits
    ensures c <= i < |spans| && spans[i].lo <= x < spans[i].hi
    decreases |spans| - c
  {
    if x < spans[c].hi {
      i := c;
    } else {
      Tiles(spans, bits, c);
      i := SpanOf(spans, bits, c + 1, x);
    }
  }

  lemma {:induction false} SpansFollow(spans: seq<Span>, bits: nat, c: nat, d: nat)
    requires Tiled(spans, bits) && c < d < |spans|
    ensures spans[c].hi <= spans[d].lo
    decreases d - c
  {
    if c + 1 < d {
      SpansFollow(spans, bits, c + 1, d);
    }
  }

  /** Together the lists are the exact complement of the bitmap, and no block is in two of them. */
  lemma ListsAreComplement(lists: seq<seq<Range>>, bitmap: seq<bool>, spans: seq<Span>, x: nat)
    requires Tiled(spans, |bitmap|) && |lists| == |spans|
    requires forall i :: 0 <= i < |spans| ==> FreeRuns(lists[i], bitmap, spans[i].lo, spans[i].hi)
    ensures (exists i :: 0 <= i < |lists| && Has(lists[i], x)) <==> spans[0].lo <= x < |bitmap| && !bitmap[x]
    ensures forall i, j :: 0 <= i < j < |lists| && Has(lists[i], x) ==> !Has(lists[j], x)
  {
    if spans[0].lo <= x < |bitmap| && !bitmap[x] {
      var i := SpanOf(spans, |bitmap|, 0, x);
      assert Has(lists[i], x);
    }
    forall i, j | 0 <= i < j < |lists| && Has(lists[i], x)
      ensures !Has(lists[j], x)
    {
      SpansFollow(spans, |bitmap|, i, j);
    }
    forall i | 0 <= i < |lists| && Has(lists[i], x)
      ensures spans[0].lo <= x < |bitmap|
    {
      Tiles(spans, |bitmap|, i);
      if i > 0 {
        SpansFollow(spans, |bitmap|, 0, i);
      }
    }
  }
}
