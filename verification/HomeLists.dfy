/**
 Which list a block belongs to: the division of the device that a recovery scan fills and the one
 by which saved ranges are loaded are the same.
 */
module HomeLists {
  import opened Ranges
  import opened SavedLists
  import Bitmap

  /** The device as nova_init_blockmap divides it: a span for each CPU, and what is left over for
      the shared list. */
  function ListSpans(blocks: nat, per: nat, cpus: nat): (spans: seq<Bitmap.Span>)
    requires per * cpus <= blocks
    ensures |spans| == cpus + 1
  {
    seq(cpus, i requires 0 <= i => Bitmap.Span(per * i, per * (i + 1))) + [Bitmap.Span(per * cpus, blocks)]
  }

  lemma ListSpansTile(blocks: nat, per: nat, cpus: nat)
    requires per * cpus <= blocks
    ensures Bitmap.Tiled(ListSpans(blocks, per, cpus), blocks)
  {
    forall i | 0 <= i < cpus
      ensures per * i <= per * (i + 1)
    {
      assert per * (i + 1) == per * i + per;
    }
  }

  /** A block belongs to the list whose span it is in. */
  lemma ListOfIsSpan(block: nat, blocks: nat, per: nat, cpus: nat, c: nat)
    requires per > 0 && per * cpus <= blocks && block < blocks && c <= cpus
    ensures ListOf(block, per, cpus) == c <==>
            ListSpans(blocks, per, cpus)[c].lo <= block < ListSpans(blocks, per, cpus)[c].hi
  {
    QuotientFrom(block, per, c);
    QuotientFrom(block, per, c + 1);
  }

  lemma QuotientFrom(block: nat, per: nat, c: nat)
    requires per > 0
    ensures block / per >= c <==> per * c <= block
  {
    var q := block / per;
    assert block == per * q + block % per;
    if q >= c {
      TimesMonotone(per, c, q);
    } else {
      TimesMonotone(per, q + 1, c);
      TimesMonotone(per, q, q);
    }
  }

  lemma TimesMonotone(k: nat, a: nat, b: nat)
    requires a <= b
    ensures k * a <= k * b && k * (a + 1) == k * a + k
  {
    assert k * b == k * a + k * (b - a);
  }

  /** Lists that a scan of the device has built are at home. */
  lemma ScannedIsAtHome(lists: seq<seq<Range>>, bitmap: seq<bool>, per: nat, cpus: nat)
    requires per > 0 && per * cpus <= |bitmap| && |lists| == cpus + 1
    requires forall c :: 0 <= c < |lists| ==>
               Bitmap.FreeRuns(lists[c], bitmap, ListSpans(|bitmap|, per, cpus)[c].lo,
                               ListSpans(|bitmap|, per, cpus)[c].hi)
    ensures AtHome(lists, per, cpus)
  {
    var spans := ListSpans(|bitmap|, per, cpus);
    ListSpansTile(|bitmap|, per, cpus);
    forall c, i | 0 <= c < |lists| && 0 <= i < |lists[c]|
      ensures ListOf(lists[c][i].low, per, cpus) == c
    {
      var x := lists[c][i].low;
      assert Bitmap.FreeRuns(lists[c], bitmap, spans[c].lo, spans[c].hi);
      Bitmap.Tiles(spans, |bitmap|, c);
      Bitmap.LastBelow(lists[c], bitmap, spans[c].lo, spans[c].hi);
      assert Within(lists[c][i], x);
      assert Has(lists[c], x);
      ListOfIsSpan(x, |bitmap|, per, cpus, c);
    }
  }
}
