/**
 The layout of records in log pages (nova.h, inode.c): the writer leaves a page when the next
 record does not fit and marks the place; the reader, who cannot know the size of a record that
 is not there, goes by the mark and by the least size a record can have.
 */
module LogWalk {
  import opened FileLog

  const LEAST: nat := 32

  /** A place in the log: the page and the offset in it. */
  datatype Pos = Pos(page: nat, off: nat)

  datatype Item = Item(size: nat, id: nat)

  datatype Cell = Record(item: Item) | NextPage

  type Memory = map<Pos, Cell>

  ghost predicate Sized(es: seq<Item>) {
    forall i :: 0 <= i < |es| ==> LEAST <= es[i].size <= LAST_ENTRY
  }

  /** is_last_entry */
  predicate IsLastEntry(p: Pos, size: nat) {
    p.off + size > LAST_ENTRY
  }

  /** goto_next_page */
  predicate GotoNextPage(mem: Memory, p: Pos) {
    p.off + LEAST > LAST_ENTRY || (p in mem && mem[p] == NextPage)
  }

  function NextOf(p: Pos): Pos {
    Pos(p.page + 1, 0)
  }

  /** Where a record goes that is appended at `p`. */
  function Place(p: Pos, size: nat): Pos {
    if IsLastEntry(p, size) then NextOf(p) else p
  }

  /** The tail after all of `es`. */
  function Tail(es: seq<Item>): Pos {
    if es == [] then Pos(0, 0)
    else
      var k := |es| - 1;
      var at := Place(Tail(es[..k]), es[k].size);
      Pos(at.page, at.off + es[k].size)
  }

  /** What is in memory after all of `es`. */
  function Image(es: seq<Item>): Memory {
    if es == [] then map[]
    else
      var k := |es| - 1;
      Appended(Image(es[..k]), Tail(es[..k]), es[k])
  }

  /** nova_set_next_page_flag, where there is room for the mark, and the record itself. */
  function Appended(mem: Memory, p: Pos, e: Item): Memory {
    var at := Place(p, e.size);
    var marked := if at != p && p.off < LAST_ENTRY then mem[p := NextPage] else mem;
    marked[at := Record(e)]
  }

  predicate Below(p: Pos, q: Pos) {
    p.page < q.page || (p.page == q.page && p.off < q.off)
  }

  lemma TailSnoc(es: seq<Item>, e: Item)
    ensures var at := Place(Tail(es), e.size); Tail(es + [e]) == Pos(at.page, at.off + e.size)
    ensures Image(es + [e]) == Appended(Image(es), Tail(es), e)
  {
    assert (es + [e])[..|es|] == es;
  }

  /** Everything written lies below the tail. */
  lemma {:induction false} WrittenBelowTail(es: seq<Item>, p: Pos)
    requires Sized(es) && p in Image(es)
    ensures Below(p, Tail(es))
  {
    var k := |es| - 1;
    var q := Tail(es[..k]);
    if p in Image(es[..k]) {
      WrittenBelowTail(es[..k], p);
    }
  }

  /** So nothing is overwritten. */
  lemma {:induction false} NothingOverwritten(es: seq<Item>, n: nat, p: Pos)
    requires Sized(es) && n <= |es| && p in Image(es[..n])
    ensures p in Image(es) && Image(es)[p] == Image(es[..n])[p]
  {
    if n == |es| {
      assert es[..n] == es;
    } else {
      var k := |es| - 1;
      assert es[..k][..n] == es[..n];
      NothingOverwritten(es[..k], n, p);
      WrittenBelowTail(es[..k], p);
    }
  }

  /** At the tail of the first `n` records the reader turns the page if and only if the writer did,
      and then finds the next record. */
  lemma ReaderFollows(es: seq<Item>, n: nat)
    requires Sized(es) && n < |es|
    ensures var p := Tail(es[..n]);
            && (GotoNextPage(Image(es), p) <==> IsLastEntry(p, es[n].size))
            && Place(p, es[n].size) in Image(es) && Image(es)[Place(p, es[n].size)] == Record(es[n])
  {
    var p, e := Tail(es[..n]), es[n];
    var at := Place(p, e.size);
    assert es[..n + 1] == es[..n] + [e];
    TailSnoc(es[..n], e);
    NothingOverwritten(es, n + 1, at);
    if at != p && p.off < LAST_ENTRY {
      NothingOverwritten(es, n + 1, p);
    }
  }

  /** Each record lies wholly in its page, right behind the one before it; or at the start of the
      next page, if and only if it would not have fitted there. */
  lemma {:induction false} RecordFits(es: seq<Item>, n: nat)
    requires Sized(es) && n < |es|
    ensures var p, q := Tail(es[..n]), Tail(es[..n + 1]);
            && q.off <= LAST_ENTRY
            && if p.off + es[n].size <= LAST_ENTRY then q == Pos(p.page, p.off + es[n].size)
               else q == Pos(p.page + 1, es[n].size)
  {
    assert es[..n + 1][..n] == es[..n];
  }

  /** The end of the walk is the tail, not before. */
  lemma {:induction false} TailsDiffer(es: seq<Item>, n: nat)
    requires Sized(es) && n < |es|
    ensures Below(Tail(es[..n]), Tail(es))
  {
    var k := |es| - 1;
    if n < k {
      assert es[..k][..n] == es[..n];
      TailsDiffer(es[..k], n);
    }
  }

  /** Appends records one after the other, as nova_get_append_head places them. */
  method Write(es: seq<Item>) returns (mem: Memory, tail: Pos)
    ensures mem == Image(es) && tail == Tail(es)
  {
    mem, tail := map[], Pos(0, 0);
    for i := 0 to |es|
      invariant mem == Image(es[..i]) && tail == Tail(es[..i])
    {
      assert es[..i + 1] == es[..i] + [es[i]];
      TailSnoc(es[..i], es[i]);
      var p := tail;
      if IsLastEntry(p, es[i].size) {
        if p.off < LAST_ENTRY {
          mem := mem[p := NextPage];
        }
        p := NextOf(p);
      }
      mem := mem[p := Record(es[i])];
      tail := Pos(p.page, p.off + es[i].size);
    }
    assert es[..|es|] == es;
  }

  /** The walk that every reader of a log makes: it visits exactly the records that were written. */
  method Read(mem: Memory, tail: Pos, ghost es: seq<Item>) returns (out: seq<Item>)
    requires Sized(es) && mem == Image(es) && tail == Tail(es)
    ensures out == es
  {
    out := [];
    var p := Pos(0, 0);
    ghost var n := 0;
    while p != tail
      invariant n <= |es| && out == es[..n] && p == Tail(es[..n])
      decreases |es| - n
    {
      assert es[..|es|] == es;
      ReaderFollows(es, n);
      if GotoNextPage(mem, p) {
        p := NextOf(p);
      }
      var e := mem[p].item;
      out := out + [e];
      TailSnoc(es[..n], es[n]);
      assert es[..n + 1] == es[..n] + [es[n]];
      p := Pos(p.page, p.off + e.size);
      n := n + 1;
    }
    if n < |es| {
      TailsDiffer(es, n);
    }
    assert es[..n] == es;
  }

  /** The second record follows the first one on the head page, where rename looks for "..". */
  lemma SecondFollowsFirst(es: seq<Item>)
    requires Sized(es) && |es| >= 2 && es[0].size + es[1].size <= LAST_ENTRY
    ensures var mem, p := Image(es), Pos(0, es[0].size);
            Pos(0, 0) in mem && mem[Pos(0, 0)] == Record(es[0]) && p in mem && mem[p] == Record(es[1])
  {
    assert es[..0] == [] && es[..1][..0] == [];
    ReaderFollows(es, 0);
    ReaderFollows(es, 1);
  }
}
