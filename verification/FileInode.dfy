/**
 A regular file while it is mounted, with the operations that change it in place.
 */
module FileInode {
  import opened FileLog
  import opened FileData
  import opened FileBooks
  import opened FileStage
  import opened FileState
  import opened FileRead
  import opened FileCrash
  import opened FileGc
  import opened FileSpace
  import Ranges
  import LogChain
  import LogCollect
  import CopyLog

  datatype Option<T> = None | Some(value: T)

  const EXTEND_THRESHOLD: nat := 256

  /** How many pages a log of `pages` pages asks for: as many as it has, up to a limit, and one at
      first. */
  function LogRequest(pages: nat): (n: nat)
    ensures 0 < n <= EXTEND_THRESHOLD && (pages > 0 ==> n <= pages)
  {
    if pages == 0 then 1 else if pages >= EXTEND_THRESHOLD then EXTEND_THRESHOLD else pages
  }

  predicate InRun(x: nat, b: nat, n: nat) {
    b <= x < b + n
  }

  function RunOf(b: nat, n: nat): (s: set<nat>) {
    set x | b <= x < b + n && InRun(x, b, n)
  }

  /** Number of pages that `count` bytes at `pos` touch. */
  function Span(pos: nat, count: nat): nat
    requires 0 < count
  {
    (count + pos % PAGE - 1) / PAGE + 1
  }

  /** What byte `i` of block `b` holds once the ends of the new blocks are filled. */
  ghost function HeadTailCell(mem: seq<byte>, tree: map<nat, Rec>, pos: nat, count: nat, blocknr: nat, b: nat,
                              i: nat): byte
    requires Mapped(mem, tree) && 0 < count && InDevice(mem, b) && i < PAGE
  {
    if b == blocknr && i < pos % PAGE then ByteAt(mem, tree, pos / PAGE * PAGE + i)
    else if b == blocknr + Span(pos, count) - 1 && 0 < (pos + count) % PAGE <= i
    then ByteAt(mem, tree, (pos / PAGE + Span(pos, count) - 1) * PAGE + i)
    else Cell(mem, b, i)
  }

  /** From `m0` to `m1` just the ends of the new blocks were filled. */
  ghost predicate EndsFilled(m0: seq<byte>, m1: seq<byte>, tree: map<nat, Rec>, pos: nat, count: nat, blocknr: nat) {
    && 0 < count && Mapped(m0, tree) && |m1| == |m0|
    && forall b, i :: InDevice(m1, b) && 0 <= i < PAGE ==>
      Cell(m1, b, i) == HeadTailCell(m0, tree, pos, count, blocknr, b, i)
  }

  /** First the start of the first block is filled, then the end of the last one. */
  lemma BothEnds(m0: seq<byte>, m1: seq<byte>, m2: seq<byte>, tree: map<nat, Rec>, pos: nat, count: nat, blocknr: nat)
    requires 0 < count && Mapped(m0, tree) && |m2| == |m1| == |m0| && Mapped(m1, tree)
    requires forall off :: ByteAt(m1, tree, off) == ByteAt(m0, tree, off)
    requires forall b, i :: InDevice(m1, b) && 0 <= i < PAGE ==>
               Cell(m1, b, i) == if b == blocknr && i < pos % PAGE then ByteAt(m0, tree, pos / PAGE * PAGE + i)
                                 else Cell(m0, b, i)
    requires forall b, i :: InDevice(m2, b) && 0 <= i < PAGE ==>
               Cell(m2, b, i) == if b == blocknr + Span(pos, count) - 1 && 0 < (pos + count) % PAGE <= i
                                 then ByteAt(m1, tree, (pos / PAGE + Span(pos, count) - 1) * PAGE + i)
                                 else Cell(m1, b, i)
    ensures EndsFilled(m0, m2, tree, pos, count, blocknr)
  {
    assert Span(pos, count) == 1 && (pos + count) % PAGE != 0 ==> pos % PAGE < (pos + count) % PAGE;
  }

  /** A chunk of whole pages has no ends to fill. */
  lemma NoEnds(mem: seq<byte>, tree: map<nat, Rec>, pos: nat, count: nat, blocknr: nat)
    requires 0 < count && Mapped(mem, tree) && pos % PAGE == 0 && (pos % PAGE + count) % PAGE == 0
    ensures EndsFilled(mem, mem, tree, pos, count, blocknr)
  {
  }

  /** Page `p` of a chunk after its ends were filled (m0 to m1) and the user's bytes copied (m2). */
  lemma ChunkPage(m0: seq<byte>, m1: seq<byte>, m2: seq<byte>, tree: map<nat, Rec>, r: Rec, pos: nat, buf: seq<byte>,
                  c: seq<byte>, target: seq<byte>, p: nat)
    requires 0 < |buf| && Reads(m0, tree, c) && |m1| == |m0| == |m2|
    requires r.e.Write? && r.e.pgoff == pos / PAGE && r.e.num == Span(pos, |buf|) && Covers(r, p)
    requires InDevice(m0, BlockOf(r, p))
    requires Chunk(c, target, pos, buf)
    requires EndsFilled(m0, m1, tree, pos, |buf|, r.e.block)
    requires forall b: nat, i: nat :: InDevice(m1, b) && i < PAGE ==>
               Cell(m2, b, i) == CopiedCell(m1, r.e.block, pos % PAGE, buf, b, i)
    ensures PageHolds(m2, BlockOf(r, p), p, target)
  {
    var b := BlockOf(r, p);
    forall i: nat | i < PAGE
      ensures Cell(m2, b, i) == At(target, p * PAGE + i)
    {
      var off := p * PAGE + i;
      assert off / PAGE == p;
      var k := (b - r.e.block) * PAGE + i - pos % PAGE;
      assert k == off - pos;
      assert At(target, off) == if pos <= off < pos + |buf| then buf[off - pos] else At(c, off);
      if k < 0 {
        assert p == r.e.pgoff && i < pos % PAGE;
      } else if k >= |buf| {
        assert p == r.e.pgoff + r.e.num - 1 && 0 < (pos + |buf|) % PAGE <= i;
        assert Cell(m1, b, i) == ByteAt(m0, tree, (pos / PAGE + Span(pos, |buf|) - 1) * PAGE + i);
      }
    }
  }

  /** Blocks outside the chunk are left alone. */
  lemma ChunkElsewhere(m0: seq<byte>, m1: seq<byte>, m2: seq<byte>, tree: map<nat, Rec>, r: Rec, pos: nat,
                       buf: seq<byte>)
    requires 0 < |buf| && Mapped(m0, tree) && |m1| == |m0| == |m2|
    requires r.e.Write? && r.e.num == Span(pos, |buf|)
    requires EndsFilled(m0, m1, tree, pos, |buf|, r.e.block)
    requires forall b: nat, i: nat :: InDevice(m1, b) && i < PAGE ==>
               Cell(m2, b, i) == CopiedCell(m1, r.e.block, pos % PAGE, buf, b, i)
    ensures SameOutside(m0, m2, RunOf(r.e.block, r.e.num))
  {
    forall b: nat, i: nat | InDevice(m0, b) && b !in RunOf(r.e.block, r.e.num) && i < PAGE
      ensures Cell(m2, b, i) == Cell(m0, b, i)
    {
      assert !InRun(b, r.e.block, r.e.num);
      assert Cell(m2, b, i) == CopiedCell(m1, r.e.block, pos % PAGE, buf, b, i);
      assert Cell(m1, b, i) == HeadTailCell(m0, tree, pos, |buf|, r.e.block, b, i);
    }
  }

  lemma FilledChunk(m0: seq<byte>, m1: seq<byte>, m2: seq<byte>, tree: map<nat, Rec>, r: Rec, pos: nat, buf: seq<byte>,
                    c: seq<byte>, target: seq<byte>)
    requires 0 < |buf| && Reads(m0, tree, c) && |m1| == |m0| && Chunk(c, target, pos, buf)
    requires r.e.Write? && r.e.pgoff == pos / PAGE && r.e.num == Span(pos, |buf|)
    requires forall b :: InRun(b, r.e.block, r.e.num) ==> InDevice(m0, b)
    requires EndsFilled(m0, m1, tree, pos, |buf|, r.e.block)
    requires r.e.block * PAGE + pos % PAGE + |buf| <= |m1| && m2 == Blit(m1, r.e.block * PAGE + pos % PAGE, buf)
    ensures SameOutside(m0, m2, RunOf(r.e.block, r.e.num))
    ensures forall p :: Covers(r, p) ==> PageHolds(m2, BlockOf(r, p), p, target)
  {
    BlitCells(m1, r.e.block, pos % PAGE, buf);
    forall p | Covers(r, p)
      ensures PageHolds(m2, BlockOf(r, p), p, target)
    {
      assert InRun(BlockOf(r, p), r.e.block, r.e.num);
      ChunkPage(m0, m1, m2, tree, r, pos, buf, c, target, p);
    }
    ChunkElsewhere(m0, m1, m2, tree, r, pos, buf);
  }

  /** On the pages that `buf` at `pos` touches, `target` is `c` with `buf` in it. */
  ghost predicate Chunk(c: seq<byte>, target: seq<byte>, pos: nat, buf: seq<byte>) {
    0 < |buf| ==>
      forall off: nat :: pos / PAGE <= off / PAGE < pos / PAGE + Span(pos, |buf|) ==>
        At(target, off) == if pos <= off < pos + |buf| then buf[off - pos] else At(c, off)
  }

  /** The guard of nova_free_contiguous_data_blocks never fires: a page still in the index is
      not counted invalid yet. */
  lemma RoomToRetire(mem: seq<byte>, log: seq<Rec>, l: Ledger, exact: bool, from: nat, p: nat)
    requires Booked(mem, log, l) && Counted(log, l.tree, l.invalid, exact)
    requires p in DropRange(l, from, p, true).tree
    ensures var m := DropRange(l, from, p, true); var r := m.tree[p];
            r.addr in m.invalid && Covers(r, p) && 0 < BlockOf(r, p) && m.invalid[r.addr] + 1 <= r.e.num
  {
    DropRangeKeepsBooks(mem, log, l, from, p);
    var m := DropRange(l, from, p, true);
    assert Backed(mem, log, m, p);
    var i :| 0 <= i < |log| && log[i] == m.tree[p];
    assert p in Owned(m.tree, m.tree[p]);
    assert Gained(log, l, m, log[i], 0, i);
  }

  lemma OldOwner(mem: seq<byte>, log: seq<Rec>, l: Ledger, r: Rec, i: nat)
    requires Booked(mem, log, l) && Room(mem, log, l, r, 0) && i < r.e.num
    ensures var m := TakeFirst(l, r, i, true); var p := r.e.pgoff + i;
            p in m.tree ==> Covers(m.tree[p], p) && m.tree[p].addr in m.invalid
  {
    TakeFirstReady(mem, log, l, r, i);
    assert Backed(mem, log, TakeFirst(l, r, i, true), r.e.pgoff + i);
  }

  /** Where the write loop stands: `rest` is still to be written, at `pos`. */
  ghost predicate Progress(pos0: nat, buf: seq<byte>, pos: nat, rest: seq<byte>, numBlocks: nat, to: nat)
    requires buf != []
  {
    && |rest| <= |buf| && rest == buf[|buf| - |rest|..] && pos == pos0 + |buf| - |rest|
    && (rest == [] ==> numBlocks == 0 && to == pos0 / PAGE + Span(pos0, |buf|))
    && (rest != [] ==> numBlocks == Span(pos, |rest|) && to == pos / PAGE && (pos == pos0 || pos % PAGE == 0))
  }

  /** The write loop between two rounds. */
  ghost predicate Writing(s: State, pos0: nat, buf: seq<byte>, pos: nat, rest: seq<byte>, numBlocks: nat, es: seq<Rec>,
                          w: Staging) {
    forall k {:trigger Inside(TheLoop, k)} :: Inside(TheLoop, k) ==>
      WritingFile(s, pos0, buf, pos, rest, numBlocks, es, w)
  }

  ghost predicate WritingFile(s: State, pos0: nat, buf: seq<byte>, pos: nat, rest: seq<byte>, numBlocks: nat,
                              es: seq<Rec>, w: Staging) {
    && buf != [] && Underway(s, es, w) && w.target == Overwritten(w.before, pos0, buf)
    && Progress(pos0, buf, pos, rest, numBlocks, w.to)
    && SizeAfter(s.size, es) == (if es == [] then s.size else Max(pos, s.size)) && (es == [] ==> rest == buf)
  }

  lemma WritingParts(s: State, pos0: nat, buf: seq<byte>, pos: nat, rest: seq<byte>, numBlocks: nat, es: seq<Rec>,
                     w: Staging)
    requires Writing(s, pos0, buf, pos, rest, numBlocks, es, w)
    ensures WritingFile(s, pos0, buf, pos, rest, numBlocks, es, w)
  {
    assert Inside(TheLoop, 0);
  }

  lemma MakeWriting(s: State, pos0: nat, buf: seq<byte>, pos: nat, rest: seq<byte>, numBlocks: nat, es: seq<Rec>,
                    w: Staging)
    requires WritingFile(s, pos0, buf, pos, rest, numBlocks, es, w)
    ensures Writing(s, pos0, buf, pos, rest, numBlocks, es, w)
  {
  }

  lemma StartWriting(s: State, pos: nat, buf: seq<byte>, c: seq<byte>, w: Staging)
    requires Sound(s, [], c) && buf != []
    requires w == Staging(pos / PAGE, pos / PAGE, {}, c, Overwritten(c, pos, buf))
    ensures Writing(s, pos, buf, pos, buf, Span(pos, |buf|), [], w)
  {
    SoundParts(s, [], c);
  }

  lemma DoneWriting(s: State, pos0: nat, buf: seq<byte>, pos: nat, rest: seq<byte>, es: seq<Rec>, w: Staging)
    requires Writing(s, pos0, buf, pos, rest, 0, es, w)
    ensures Underway(s, es, w) && buf != [] && w.to == pos0 / PAGE + Span(pos0, |buf|)
    ensures SizeAfter(s.size, es) == Max(pos0 + |buf|, s.size)
  {
    WritingParts(s, pos0, buf, pos, rest, 0, es, w);
  }

  lemma CollectedUnderway(s: State, t: State, es: seq<Rec>, w: Staging, to: map<nat, nat>)
    requires Underway(s, es, w) && Sound(t, es, w.before)
    requires t == s.(log := t.log, tree := MoveTree(s.tree, to), invalid := t.invalid)
    ensures Underway(t, es, w)
  {
    UnderwayParts(s, es, w);
    MovedLive(s.tree, to);
  }

  /** The same blocks are in use. */
  ghost predicate SameLive(tree: map<nat, Rec>, tree': map<nat, Rec>) {
    forall b: nat :: Live(tree, b) <==> Live(tree', b)
  }

  lemma FreeOnDevice(s: State, pend: seq<Rec>, c: seq<byte>)
    requires Sound(s, pend, c)
    ensures 0 !in s.free && forall b :: b in s.free ==> InDevice(s.mem, b) && !Live(s.tree, b)
  {
    SoundParts(s, pend, c);
    forall b | b in s.free
      ensures InDevice(s.mem, b) && !Live(s.tree, b)
    {
      FreeIsNotLive(s, b);
    }
  }

  /** Blocks that go elsewhere, or come back, make no difference to a write under way. */
  lemma OtherBlocks(s: State, es: seq<Rec>, w: Staging, free: set<nat>)
    requires Underway(s, es, w)
    requires forall b :: b in free ==> InDevice(s.mem, b) && !Live(s.tree, b) && b !in w.taken
    ensures Underway(s.(free := free), es, w)
  {
    UnderwayParts(s, es, w);
    SoundParts(s, es, w.before);
    BooksWithFree(s.mem, s.log, Books(s), free);
    assert SoundFile(s.(free := free), es, w.before);
  }

  lemma BooksWithFree(mem: seq<byte>, log: seq<Rec>, l: Ledger, free: set<nat>)
    requires Booked(mem, log, l) && forall b :: b in free ==> InDevice(mem, b) && !Live(l.tree, b)
    ensures Booked(mem, log, l.(free := free))
  {
    forall p: nat
      ensures Backed(mem, log, l.(free := free), p)
    {
      assert Backed(mem, log, l, p);
      assert p in l.tree ==> Backs(l.tree, p, BlockOf(l.tree[p], p));
    }
  }

  lemma FewerBlocks(s: State, es: seq<Rec>, w: Staging, free: set<nat>)
    requires Underway(s, es, w) && free <= s.free
    ensures Underway(s.(free := free), es, w)
  {
    UnderwayParts(s, es, w);
    FreeOnDevice(s, es, w.before);
    OtherBlocks(s, es, w, free);
  }

  lemma FreeInWrite(s: State, es: seq<Rec>, w: Staging)
    requires Underway(s, es, w)
    ensures 0 !in s.free && forall b :: b in s.free ==> InDevice(s.mem, b) && !Live(s.tree, b) && b !in w.taken
  {
    UnderwayParts(s, es, w);
    FreeOnDevice(s, es, w.before);
  }

  /** Blocks taken for the next record count as free until they are filled. */
  lemma BlocksInHand(s: State, es: seq<Rec>, w: Staging, run: set<nat>)
    requires Underway(s, es, w)
    requires forall b :: b in run ==> InDevice(s.mem, b) && !Live(s.tree, b) && b !in w.taken
    ensures Underway(s.(free := s.free + run), es, w)
  {
    FreeInWrite(s, es, w);
    OtherBlocks(s, es, w, s.free + run);
  }

  lemma OutsideTheFile(s: State, es: seq<Rec>, w: Staging)
    requires Underway(s, es, w)
    ensures Sound(s, es, w.before) && forall b :: b in w.taken + s.free ==> !Live(s.tree, b)
  {
    UnderwayParts(s, es, w);
    SoundParts(s, es, w.before);
    forall b | b in s.free
      ensures !Live(s.tree, b)
    {
      FreeIsNotLive(s, b);
    }
  }

  /** A write changes nothing outside the pages it touches. */
  lemma OutsidePages(c: seq<byte>, pos: nat, buf: seq<byte>)
    requires buf != []
    ensures forall off: nat :: !(pos / PAGE <= off / PAGE < pos / PAGE + Span(pos, |buf|)) ==>
              At(c, off) == At(Overwritten(c, pos, buf), off)
  {
    forall off: nat | !(pos / PAGE <= off / PAGE < pos / PAGE + Span(pos, |buf|))
      ensures At(c, off) == At(Overwritten(c, pos, buf), off)
    {
    }
  }

  lemma Advance(pos0: nat, buf: seq<byte>, pos: nat, rest: seq<byte>, numBlocks: nat, to: nat, bytes: nat)
    requires buf != [] && Progress(pos0, buf, pos, rest, numBlocks, to) && rest != []
    requires 0 < bytes <= |rest| && (bytes < |rest| ==> (pos + bytes) % PAGE == 0)
    ensures Span(pos, bytes) <= numBlocks
    ensures Progress(pos0, buf, pos + bytes, rest[bytes..], numBlocks - Span(pos, bytes), to + Span(pos, bytes))
  {
    SpanSplits(pos, bytes, |rest|);
    SpanEnds(pos0, |buf|, pos);
    assert rest[bytes..] == buf[|buf| - |rest| + bytes..];
  }

  lemma SpanSplits(pos: nat, bytes: nat, len: nat)
    requires 0 < bytes <= len && (bytes < len ==> (pos + bytes) % PAGE == 0)
    ensures Span(pos, bytes) <= Span(pos, len)
    ensures bytes < len ==> Span(pos, len) == Span(pos, bytes) + Span(pos + bytes, len - bytes)
    ensures bytes < len ==> (pos + bytes) / PAGE == pos / PAGE + Span(pos, bytes)
  {
  }

  lemma SpanEnds(pos0: nat, len: nat, pos: nat)
    requires pos0 <= pos < pos0 + len && (pos == pos0 || pos % PAGE == 0)
    ensures pos / PAGE + Span(pos, pos0 + len - pos) == pos0 / PAGE + Span(pos0, len)
  {
  }

  /** What is left of the write is again a chunk of it. */
  lemma NextChunk(c: seq<byte>, pos0: nat, buf: seq<byte>, pos: nat, rest: seq<byte>, numBlocks: nat, to: nat)
    requires buf != [] && Progress(pos0, buf, pos, rest, numBlocks, to) && rest != []
    ensures Chunk(c, Overwritten(c, pos0, buf), pos, rest)
  {
    var d := Overwritten(c, pos0, buf);
    forall off: nat | pos / PAGE <= off / PAGE < pos / PAGE + Span(pos, |rest|)
      ensures At(d, off) == if pos <= off < pos + |rest| then rest[off - pos] else At(c, off)
    {
    }
  }

  lemma RunIsCarried(r: Rec)
    requires r.e.Write?
    ensures forall b :: b in RunOf(r.e.block, r.e.num) ==> exists p :: CarriesAt(r, p, b)
  {
    forall b | b in RunOf(r.e.block, r.e.num)
      ensures exists p :: CarriesAt(r, p, b)
    {
      assert CarriesAt(r, r.e.pgoff + (b - r.e.block), b);
    }
  }

  /** How much of the write fits the `got` blocks that were allocated. */
  function ChunkBytes(pos: nat, len: nat, got: nat): nat
    requires 0 < got
  {
    if PAGE * got - pos % PAGE > len then len else PAGE * got - pos % PAGE
  }

  lemma ChunkFits(pos: nat, len: nat, got: nat, size: nat)
    requires 0 < len && 0 < got <= Span(pos, len)
    ensures var n := ChunkBytes(pos, len, got);
            && 0 < n <= len && Span(pos, n) == got && (n < len ==> (pos + n) % PAGE == 0)
            && pos / PAGE + got <= PagesOf(Max(pos + n, size))
  {
    var n := ChunkBytes(pos, len, got);
    assert pos / PAGE + got <= PagesOf(pos + n);
    PagesMonotone(pos + n, Max(pos + n, size));
  }

  lemma RunIsFree(s: State, b: nat, n: nat)
    requires Booked(s.mem, s.log, Books(s)) && RunOf(b, n) <= s.free
    ensures forall x :: InRun(x, b, n) ==> InDevice(s.mem, x) && !Live(s.tree, x)
  {
    forall x | InRun(x, b, n)
      ensures InDevice(s.mem, x) && !Live(s.tree, x)
    {
      assert x in RunOf(b, n);
      FreeIsNotLive(s, x);
    }
  }

  lemma FirstPart(c: seq<byte>, target: seq<byte>, pos: nat, buf: seq<byte>, bytes: nat)
    requires Chunk(c, target, pos, buf) && 0 < bytes <= |buf| && (bytes < |buf| ==> (pos + bytes) % PAGE == 0)
    ensures Chunk(c, target, pos, buf[..bytes])
  {
  }

  /** Byte `cur` is byte `offset` of page `index`. */
  predicate IsAt(index: nat, offset: nat, cur: nat) {
    cur == index * PAGE + offset && offset < PAGE
  }

  lemma {:induction false} IndexCovers(v0: View, log: seq<Rec>, marks: set<nat>)
    requires Fresh(v0)
    ensures forall p :: p in Replay(v0, log, marks).tree ==> Covers(Replay(v0, log, marks).tree[p], p)
  {
    if log != [] {
      IndexCovers(v0, log[..|log| - 1], marks);
    }
  }

  /** The books once `r` is committed and the last page is cleared, before pages are dropped. */
  ghost predicate MayCut(s: State, r: Rec, newsize: nat) {
    forall k {:trigger Inside(TheFile, k)} :: Inside(TheFile, k) ==> CutBooks(s, r, newsize)
  }

  ghost predicate CutBooks(s: State, r: Rec, newsize: nat) {
    var inv := s.invalid[r.addr := 0];
    && Mapped(s.mem, s.tree) && Counted(s.log + [r], s.tree, inv, s.exact)
    && Booked(Cleared(s.mem, s.tree, newsize, s.size), s.log + [r], Ledger(s.tree, inv, s.free))
  }

  lemma MayCutParts(s: State, r: Rec, newsize: nat)
    requires MayCut(s, r, newsize)
    ensures CutBooks(s, r, newsize)
  {
    assert Inside(TheFile, 0);
  }

  /** All that a truncate relies on once its record is committed. */
  lemma TruncatePlan(s: State, r: Rec, newsize: nat, c: seq<byte>)
    requires Sound(s, [], c) && r.e.SetAttr? && r.e.setsSize && r.e.size == newsize
    requires forall i :: 0 <= i < |s.log| ==> s.log[i].addr < r.addr
    ensures Mapped(s.mem, s.tree) && MayCut(s, r, newsize) && Sound(Truncated(s, r, newsize), [], Resized(c, newsize))
  {
    TruncateSound(s, r, newsize, c);
  }

  lemma EmptyIsSound(mem: seq<byte>, free: set<nat>)
    requires forall b :: b in free ==> InDevice(mem, b)
    ensures Sound(State(mem, [], map[], map[], 0, free, true), [], [])
  {
  }

  lemma LogsFromStart(ks: seq<CrashPoint>, a: seq<Rec>, b: seq<Rec>)
    requires ks != [] && ks[0].log == a && LogsWithin(ks, 1, a, b)
    ensures LogsWithin(ks, 0, a, b)
  {
    assert Inside(TheLogs, 0);
  }

  /** A record with a new address is not in the log at any moment of the collection before it. */
  lemma BeyondBoth(was: seq<Rec>, log: seq<Rec>, r: Rec, before: seq<CrashPoint>)
    requires r.addr == NewAddr(was + log) && before != [] && before[0].log == was && LogsWithin(before, 1, was, log)
    ensures NotYet(before, r) && r !in log && forall i :: 0 <= i < |log| ==> log[i].addr < r.addr
  {
    forall i | 0 <= i < |was|
      ensures was[i].addr < r.addr
    {
      assert (was + log)[i] == was[i];
    }
    forall i | 0 <= i < |log|
      ensures log[i].addr < r.addr
    {
      assert (was + log)[|was| + i] == log[i];
    }
    LogsFromStart(before, was, log);
    NewIsNotYet(before, was, log, r);
  }

  /** A record that repeats the size or has none changes attributes or links alone. */
  lemma AppendedMeans(s: State, r: Rec, c: seq<byte>)
    requires Sound(s, [], c) && (r.e.LinkChange? || (r.e.SetAttr? && !r.e.setsSize && r.e.size == s.size))
    ensures Meaning(s.log + [r]) == match r.e
                                    case SetAttr(_, _, attrs) => Meaning(s.log).(attrs := attrs)
                                    case _ => Meaning(s.log).(links := r.e.links)
  {
    SoundParts(s, [], c);
    ReplayAppend(EMPTY, s.log, r, {});
  }

  lemma AllTell(ks: seq<CrashPoint>, log: seq<Rec>, r: Rec)
    requires log != [] && log[|log| - 1] == r && r.e.SetAttr? && forall i :: 0 <= i < |ks| ==> ks[i].log == log
    ensures forall i :: 0 <= i < |ks| ==> Tells(ks[i], r.e.attrs, r.e.size)
    ensures Meaning(log).attrs == r.e.attrs && Meaning(log).size == r.e.size
  {
    forall i | 0 <= i < |ks|
      ensures Tells(ks[i], r.e.attrs, r.e.size)
    {
      LastTells(ks[i], r);
    }
  }

  /** A record written beyond the tail changes nothing yet. */
  lemma WrittenRecord(s: State, r: Rec, c: seq<byte>)
    requires Sound(s, [], c) && forall i :: 0 <= i < |s.log| ==> s.log[i].addr < r.addr
    ensures RecoversTo(CrashPoint(s.log, s.invalid[r.addr := 0], s.mem, iset{}, s.free), c)
  {
    assert HasCounter(s.log, s.invalid) by {
      SoundParts(s, [], c);
    }
    SoundRecovers(s, [], c, CrashPoint(s.log, s.invalid[r.addr := 0], s.mem, iset{}, s.free));
  }

  /** The books when the first `k` of the records have taken over their pages. */
  ghost predicate TakenSoFar(was: Ledger, es: seq<Rec>, k: nat, l: Ledger) {
    forall x {:trigger Inside(TheTaking, x)} :: Inside(TheTaking, x) ==>
      k <= |es| && (forall i :: 0 <= i < |es| ==> es[i].e.Write?) && l == TakeAll(was, es[..k])
  }

  lemma NothingTaken(was: Ledger, es: seq<Rec>)
    requires forall i :: 0 <= i < |es| ==> es[i].e.Write?
    ensures TakenSoFar(was, es, 0, was)
  {
    assert es[..0] == [];
  }

  lemma AllTaken(was: Ledger, es: seq<Rec>, l: Ledger)
    requires TakenSoFar(was, es, |es|, l) && forall i :: 0 <= i < |es| ==> es[i].e.Write?
    ensures l == TakeAll(was, es)
  {
    assert Inside(TheTaking, 0);
    assert es[..|es|] == es;
  }

  lemma MayTakeNext(mem: seq<byte>, log: seq<Rec>, was: Ledger, es: seq<Rec>, k: nat, l: Ledger)
    requires Takeable(mem, log, was, es) && k < |es| && TakenSoFar(was, es, k, l)
    ensures Booked(mem, log, l) && Room(mem, log, l, es[k], 0)
  {
    TakeableParts(mem, log, was, es);
    assert Inside(TheTaking, 0);
    TakeAllKeepsBooks(mem, log, was, es, k);
  }

  /** The books after the next record are on their way to the end, `t`. */
  lemma TookNext(mem: seq<byte>, log: seq<Rec>, was: Ledger, es: seq<Rec>, k: nat, l: Ledger, m: Ledger, t: Ledger)
    requires Takeable(mem, log, was, es) && k < |es| && TakenSoFar(was, es, k, l) && es[k].e.Write?
    requires m == TakeFirst(l, es[k], es[k].e.num, true)
    requires (forall i :: 0 <= i < |es| ==> es[i].e.Write?) && t == TakeAll(was, es)
    ensures TakenSoFar(was, es, k + 1, m) && HasCounter(log, m.invalid) && Grown(m, t)
  {
    TakeableParts(mem, log, was, es);
    assert Inside(TheTaking, 0);
    assert es[..k + 1][..k] == es[..k];
    TakeAllKeepsBooks(mem, log, was, es, k + 1);
    TakeAllGrows(was, es, k + 1);
  }

  /** `out` is what the read loop fetches from `pos` to `end`. */
  ghost predicate Fetches(s: State, pos: nat, end: nat, out: seq<byte>) {
    forall k {:trigger Inside(TheRead, k)} :: Inside(TheRead, k) ==>
      Readable(s) && pos <= end && out == FetchedAll(s, pos, end)
  }

  /** So far `out`, with the bytes from `cur` on to come. */
  ghost predicate FetchesSoFar(s: State, pos: nat, cur: nat, end: nat, out: seq<byte>) {
    forall k {:trigger Inside(TheRead, k)} :: Inside(TheRead, k) ==> FetchedSoFar(s, pos, cur, end, out)
  }

  ghost predicate FetchedSoFar(s: State, pos: nat, cur: nat, end: nat, out: seq<byte>) {
    Readable(s) && pos <= cur <= end && out + FetchedAll(s, cur, end) == FetchedAll(s, pos, end)
  }

  /** Every round of a read from `pos` to `end` follows the index. */
  ghost predicate FollowsIndex(s: State, pos: nat, end: nat) {
    forall k {:trigger Inside(TheRead, k)} :: Inside(TheRead, k) ==>
      Readable(s) && pos <= end && FollowedAll(s, pos, end)
  }

  lemma FetchNothing(s: State, c: seq<byte>, pos: nat, end: nat)
    requires Sound(s, [], c) && pos <= end
    ensures Fetches(s, pos, pos, []) && FetchesSoFar(s, pos, pos, end, [])
  {
    SoundParts(s, [], c);
    SoundIsReadable(s, c);
    assert [] + FetchedAll(s, pos, end) == FetchedAll(s, pos, end);
  }

  lemma FetchedToEnd(s: State, pos: nat, end: nat, out: seq<byte>)
    requires FetchesSoFar(s, pos, end, end, out)
    ensures Fetches(s, pos, end, out)
  {
    assert Inside(TheRead, 0);
    assert out + FetchedAll(s, end, end) == out;
  }

  lemma CanRead(s: State, pos: nat, cur: nat, end: nat, out: seq<byte>)
    requires FetchesSoFar(s, pos, cur, end, out)
    ensures Readable(s)
  {
    assert Inside(TheRead, 0);
  }

  lemma Regroup(a: seq<byte>, b: seq<byte>, c: seq<byte>)
    ensures a + (b + c) == (a + b) + c
  {
  }

  lemma OneRound(s: State, pos: nat, cur: nat, end: nat, out: seq<byte>, chunk: seq<byte>)
    requires FetchedSoFar(s, pos, cur, end, out) && cur < end && chunk == Fetched(s, cur, end - cur)
    ensures FetchedSoFar(s, pos, cur + |chunk|, end, out + chunk)
  {
    FetchedAllStep(s, cur, end);
    JoinRound(out, chunk, FetchedAll(s, cur + |chunk|, end), FetchedAll(s, cur, end), FetchedAll(s, pos, end));
  }

  lemma JoinRound(out: seq<byte>, chunk: seq<byte>, rest: seq<byte>, coming: seq<byte>, whole: seq<byte>)
    requires coming == chunk + rest && out + coming == whole
    ensures (out + chunk) + rest == whole
  {
    Regroup(out, chunk, rest);
  }

  lemma NextRound(s: State, pos: nat, cur: nat, end: nat, out: seq<byte>, chunk: seq<byte>)
    requires FetchesSoFar(s, pos, cur, end, out) && cur < end && Readable(s) && chunk == Fetched(s, cur, end - cur)
    ensures 0 < |chunk| <= end - cur && FetchesSoFar(s, pos, cur + |chunk|, end, out + chunk)
  {
    assert Inside(TheRead, 0);
    OneRound(s, pos, cur, end, out, chunk);
  }

  lemma RightRead(s: State, c: seq<byte>, pos: nat, len: nat, end: nat, out: seq<byte>)
    requires Sound(s, [], c) && end == ReadEnd(|c|, pos, len) && Fetches(s, pos, end, out)
    ensures FollowsIndex(s, pos, end) ==> out == ReadOf(c, pos, len)
    ensures s.exact ==> FollowsIndex(s, pos, end)
  {
    assert Inside(TheRead, 0);
    if FollowedAll(s, pos, end) && pos < |c| {
      FollowedIsRight(s, c, pos, end);
    }
    if s.exact {
      ExactIsFollowed(s, c, pos, end);
    }
  }

  /** The first moment after the tail store of a fully staged write. */
  lemma CommitPoint(s: State, es: seq<Rec>, w: Staging, l: Ledger)
    requires (forall i :: 0 <= i < |es| ==> es[i].e.Write?) && Takeable(s.mem, s.log + es, Books(s), es)
    requires Sound(Committed(s, es), [], w.target) && l == Books(s)
    ensures AllRecover([CrashPoint(s.log + es, l.invalid, s.mem, iset{}, l.free)], w.target)
  {
    TakeableParts(s.mem, s.log + es, Books(s), es);
    TakeAllGrows(Books(s), es, 0);
    assert es[..0] == [];
    CommittedSurvives(Committed(s, es), l, w.target);
    NoneToRecover(w.target);
    RecoverMore([], CrashPoint(s.log + es, l.invalid, s.mem, iset{}, l.free), w.target);
  }

  class File {
    // NVMM
    var mem: seq<byte>
    var log: seq<Rec>
    var invalid: map<nat, nat>
    // DRAM
    var tree: map<nat, Rec>
    var size: nat
    // The blocks on the free lists of the CPUs
    var free: set<nat>
    const cpus: Count
    // Pages of the log
    var logPages: nat
    // Blocks that were taken for pages of the log
    ghost var logBlocks: set<nat>
    // The file as a plain byte sequence
    ghost var bytes: seq<byte>
    // No crash has lost an update of `invalid`
    ghost var exact: bool
    // What a crash after each store of the running operation would leave, up to its commit and
    // from its commit on
    ghost var before: seq<CrashPoint>
    ghost var after: seq<CrashPoint>

    ghost function Now(): State
      reads this
    {
      State(mem, log, invalid, tree, size, free, exact)
    }

    ghost predicate Valid()
      reads this
    {
      Sound(Now(), [], bytes)
    }

    /** What a crash leaves now, with the cells `torn` in flight. */
    ghost function Point(torn: iset<(nat, nat)>): CrashPoint
      reads this
    {
      CrashPoint(log, invalid, mem, torn, free)
    }

    /** A new file has neither log nor pages. */
    constructor (mem: seq<byte>, free: set<nat>, cpus: Count)
      requires forall b :: b in free ==> InDevice(mem, b)
      ensures Valid() && exact && bytes == [] && log == [] && this.mem == mem && this.free == free
      ensures this.cpus == cpus && logPages == 0
    {
      this.cpus, logPages, logBlocks := cpus, 0, {};
      this.mem, log, invalid := mem, [], map[];
      tree, size, this.free := map[], 0, free;
      bytes, exact, before, after := [], true, [], [];
      new;
      EmptyIsSound(mem, free);
    }

    // -------------------------------------------------------------------------------------
    // The page index
    // -------------------------------------------------------------------------------------

    /** nova_assign_write_entry: point every page of `r` at it.  With `release`, the page's old
        block is freed and the old record's counter goes up. */
    method AssignWriteEntry(r: Rec, release: bool)
      requires r.e.Write?
      requires release ==>
        Booked(mem, log, Books(Now())) && Room(mem, log, Books(Now()), r, 0)
      modifies this`tree, this`invalid, this`free
      ensures Books(Now()) == TakeFirst(old(Books(Now())), r, r.e.num, release)
      ensures tree == Assign(old(tree), r)
      ensures !release ==> invalid == old(invalid) && free == old(free)
    {
      ghost var was := Books(Now());
      var i := 0;
      while i < r.e.num
        invariant 0 <= i <= r.e.num
        invariant Books(Now()) == TakeFirst(was, r, i, release)
      {
        var p := r.e.pgoff + i;
        if p in tree {
          var o := tree[p];
          if release {
            OldOwner(mem, log, was, r, i);
            invalid := invalid[o.addr := invalid[o.addr] + 1];
            free := free + {BlockOf(o, p)};
          }
        }
        tree := tree[p := r];
        i := i + 1;
      }
      TakeFirstIndex(was, r, i, release);
      AssignFirstAll(was.tree, r);
    }

    /** nova_find_next_entry: the record at the first key not below `pgoff`. */
    method FindNextEntry(pgoff: nat) returns (next: Option<Rec>, ghost key: nat)
      ensures next.None? ==> forall q :: q in tree ==> q < pgoff
      ensures next.Some? ==> key in tree && pgoff <= key && tree[key] == next.value
      ensures next.Some? ==> forall q :: q in tree && pgoff <= q ==> key <= q
    {
      if k :| k in tree && pgoff <= k {
        LeastKeyExists(tree, pgoff, k);
        var m :| m in tree && pgoff <= m && forall q :: q in tree && pgoff <= q ==> m <= q;
        next, key := Some(tree[m]), m;
      } else {
        next, key := None, 0;
      }
    }

    /** nova_free_contiguous_data_blocks: count page `p` of `r` invalid and add its block to the
        pending run start..start+num-1, freeing the run first when the block does not extend it. */
    method FreeContiguous(r: Rec, p: nat, start: nat, num: nat) returns (start': nat, num': nat)
      requires Covers(r, p) && 0 < BlockOf(r, p) && r.addr in invalid
      requires invalid[r.addr] + 1 <= r.e.num
      requires start == 0 ==> num == 0
      modifies this`invalid, this`free
      ensures invalid == old(invalid)[r.addr := old(invalid)[r.addr] + 1]
      ensures 0 < start' && free + RunOf(start', num') == old(free) + RunOf(start, num) + {BlockOf(r, p)}
    {
      invalid := invalid[r.addr := invalid[r.addr] + 1];
      var nvmm := BlockOf(r, p);
      if start == 0 {
        start', num' := nvmm, 1;
      } else if nvmm == start + num {
        start', num' := start, num + 1;
      } else {
        free := free + RunOf(start, num);
        start', num' := nvmm, 1;
      }
    }

    /** nova_delete_file_tree: take the pages first..last out of the index.  Holes are skipped
        by jumping to the next record, and freed blocks are collected into contiguous runs. */
    method DeleteFileTree(first: nat, last: nat, release: bool)
      requires forall p :: p in tree ==> Covers(tree[p], p)
      requires release ==> Booked(mem, log, Books(Now())) && Counted(log, tree, invalid, exact)
      modifies this`tree, this`invalid, this`free
      ensures Books(Now()) == DropRange(old(Books(Now())), first, last + 1, release)
      ensures tree == Cut(old(tree), first, last + 1)
      ensures !release ==> invalid == old(invalid) && free == old(free)
    {
      ghost var was := old(Books(Now()));
      var pgoff := first;
      var start, num := 0, 0;
      while pgoff <= last
        invariant first <= pgoff
        invariant start == 0 ==> num == 0
        invariant Books(Now()).(free := free + RunOf(start, num)) == DropRange(was, first, pgoff, release)
        invariant pgoff > last + 1 ==> DropRange(was, first, pgoff, release) == DropRange(was, first, last + 1, release)
        invariant forall p :: p in tree ==> Covers(tree[p], p)
      {
        if pgoff in tree {
          var r := tree[pgoff];
          if release {
            RoomToRetire(mem, log, was, exact, first, pgoff);
          }
          tree := tree - {pgoff};
          if release {
            start, num := FreeContiguous(r, pgoff, start, num);
          }
          pgoff := pgoff + 1;
        } else {
          var next, key := FindNextEntry(pgoff);
          if next.None? {
            SkipHole(was, first, pgoff, last + 1, release);
            break;
          }
          var p := pgoff + 1;
          p := if p > next.value.e.pgoff then p else next.value.e.pgoff;
          SkipHole(was, first, pgoff, p, release);
          if p > last + 1 {
            SkipHole(was, first, pgoff, last + 1, release);
          }
          pgoff := p;
        }
      }
      if start != 0 {
        free := free + RunOf(start, num);
      }
      DropRangeIndex(was, first, last + 1, release);
    }

    // -------------------------------------------------------------------------------------
    // Log space
    // -------------------------------------------------------------------------------------

    /** A fast collection, with the records `pend` written beyond the tail and the blocks `taken`
        being filled.  Every durable state on the way is put on record. */
    method CollectFast(pend: seq<Rec>, marks: LogChain.Marks, ghost taken: set<nat>)
      returns (ghost j: Fast.Job, ghost start: Fast.Disk, ghost ks: seq<LogChain.Image>)
      requires Sound(Now(), pend, bytes) && marks.invalid == invalid && AllRecover(before, bytes)
      requires forall b :: b in taken ==> !Live(tree, b)
      modifies this`log, this`before
      ensures FastOf(old(Now()), j, start, ks) && j.m == marks && log == LogAt(j, ks[|ks| - 1])
      ensures FastDone(j, start, LogCollect.DiskOf(ks[|ks| - 1]))
      ensures Sound(Now(), pend, bytes)
      ensures before == old(before) + FastPoints(old(Now()), j, ks, BlockCells(taken)) && AllRecover(before, bytes)
      ensures LogsWithin(before, |old(before)|, old(log), []) && OnlyFrom(log, old(log), [])
    {
      ghost var s := Now();
      CanCollect(s, pend, bytes);
      var now;
      now, j, start, ks := RunFast(log, pend, marks);
      FastIsSound(s, pend, bytes, j, start, ks);
      TakenIsAside(s, taken);
      FastCrashRecovers(s, pend, bytes, j, start, ks, BlockCells(taken));
      RecoverBoth(before, FastPoints(s, j, ks, BlockCells(taken)), bytes);
      FastLogs(s, j, start, ks, before, FastPoints(s, j, ks, BlockCells(taken)), BlockCells(taken));
      before := before + FastPoints(s, j, ks, BlockCells(taken));
      log := now;
    }

    /** A thorough collection in the same way.  Nothing happens if the log is a single page. */
    method CollectThorough(pend: seq<Rec>, marks: LogChain.Marks, ghost taken: set<nat>)
      returns (moved: bool, ghost w: Thorough.Work, ghost c: CopyLog.Copy, ghost start: Thorough.Nvm,
               ghost ks: seq<Thorough.Snap>, ghost mid: Thorough.Nvm, ghost ls: seq<Thorough.Snap>,
               ghost end: Thorough.Nvm)
      requires Sound(Now(), pend, bytes) && marks.invalid == invalid && AllRecover(before, bytes)
      requires forall b :: b in taken ==> !Live(tree, b)
      modifies this`log, this`tree, this`invalid, this`before
      ensures !moved ==> Now() == old(Now()) && before == old(before)
      ensures moved ==> ThoroughRun(old(Now()), pend, w, c, start, ks, mid, ls, end) && w.m == marks
      ensures moved ==> Now() == Compacted(old(Now()), w, c)
      ensures moved ==>
        before == old(before) + ThoroughPoints(old(Now()), ks + ls, w.count, c.m.invalid, BlockCells(taken))
      ensures Sound(Now(), pend, bytes) && AllRecover(before, bytes)
      ensures LogsWithin(before, |old(before)|, old(log), log)
    {
      ghost var s := Now();
      CanCollect(s, pend, bytes);
      var now, m, t;
      moved, now, m, t, w, c, start, ks, mid, ls, end := RunThorough(log, pend, marks, tree);
      if moved {
        ghost var points := ThoroughPoints(s, ks + ls, w.count, c.m.invalid, BlockCells(taken));
        ThoroughMoments(s, pend, bytes, w, c, start, ks, mid, ls, end, now, m, t, taken, before, points);
        ThoroughLogs(s, pend, w, c, start, ks, mid, ls, end, before, points, BlockCells(taken));
        before := before + points;
        log, tree, invalid := now, t, m.invalid;
      }
    }

    /** An append that finds its page full extends the log, which runs a fast collection and after
        it perhaps a thorough one.  Where sih->last_setattr and sih->last_link_change point does
        not matter to the file. */
    method MaybeCollect(pend: seq<Rec>, ghost taken: set<nat>) returns (ghost to: map<nat, nat>)
      requires Sound(Now(), pend, bytes) && AllRecover(before, bytes)
      requires forall b :: b in taken ==> !Live(tree, b)
      modifies this`log, this`tree, this`invalid, this`before
      ensures Sound(Now(), pend, bytes) && tree == MoveTree(old(tree), to)
      ensures AllRecover(before, bytes) && old(before) <= before
      ensures before == old(before) ==> Now() == old(Now())
      ensures before != old(before) ==> before[|before| - 1] == Point(BlockCells(taken))
      ensures LogsWithin(before, |old(before)|, old(log), log)
    {
      to := map[];
      MoveNothing(log, tree);
      var full: bool, marks: LogChain.Marks := *, *;
      if full {
        ghost var j, start, ks := CollectFast(pend, marks.(invalid := invalid), taken);
        ghost var mid, kept := before, log;
        var worthwhile: bool := *;
        if worthwhile {
          to := CompactLog(pend, marks.(invalid := invalid), taken);
          LogsJoin(before, |old(before)|, |mid|, old(log), kept, log);
        }
      }
    }

    method CompactLog(pend: seq<Rec>, marks: LogChain.Marks, ghost taken: set<nat>) returns (ghost to: map<nat, nat>)
      requires Sound(Now(), pend, bytes) && marks.invalid == invalid && AllRecover(before, bytes)
      requires forall b :: b in taken ==> !Live(tree, b)
      requires before != [] && before[|before| - 1] == Point(BlockCells(taken))
      modifies this`log, this`tree, this`invalid, this`before
      ensures Sound(Now(), pend, bytes) && tree == MoveTree(old(tree), to)
      ensures AllRecover(before, bytes) && old(before) <= before
      ensures before[|before| - 1] == Point(BlockCells(taken))
      ensures LogsWithin(before, |old(before)|, old(log), log)
    {
      MoveNothing(log, tree);
      ghost var s := Now();
      var moved;
      ghost var w, c, start, ks, mid, ls, end;
      moved, w, c, start, ks, mid, ls, end := CollectThorough(pend, marks, taken);
      to := map[];
      if moved {
        to := c.to;
        ThoroughRunParts(s, pend, w, c, start, ks, mid, ls, end);
        LogAfter(w, c, mid, ls, end, |ls| - 1);
      }
    }

    // -------------------------------------------------------------------------------------
    // Copy-on-write
    // -------------------------------------------------------------------------------------

    /** nova_new_data_blocks and nova_new_log_blocks: between 1 and `n` contiguous blocks from one of
        the lists over which the free blocks are spread, if one of them counts enough. */
    method NewDataBlocks(n: nat) returns (blocknr: nat, got: nat, ghost lists: seq<seq<Ranges.Range>>)
      requires 0 < n && 0 !in free
      modifies this`free
      ensures |lists| == cpus && Spread(lists, old(free)) && (got > 0 <==> Served(lists, n))
      ensures n == 1 ==> (got > 0 <==> old(free) != {})
      ensures got <= n && (0 < got < n ==> IsNode(lists, Ranges.Range(blocknr, blocknr + got - 1)))
      ensures got == 0 ==> free == old(free)
      ensures got > 0 ==> RunOf(blocknr, got) <= old(free) && free == old(free) - RunOf(blocknr, got)
    {
      blocknr, got, lists := Request(free, cpus, n);
      if got > 0 {
        assert blocknr in free;
        free := free - RunOf(blocknr, got);
      } else if free != {} && n == 1 {
        OneIsServed(lists, free);
      }
    }

    /** Log space for the next record of a write, whose blocks `run` are being filled.  If the record
        does not fit the last page, more pages are asked for, and a collection follows. */
    method ExtendLog(es: seq<Rec>, ghost run: set<nat>, ghost w: Staging) returns (room: bool, ghost asked: Attempt)
      requires Underway(Now(), es, w) && w.before == bytes && before != [] && AllRecover(before, bytes)
      requires forall b :: b in run ==> !Live(tree, b)
      modifies this`log, this`tree, this`invalid, this`before, this`free, this`logBlocks, this`logPages
      ensures Underway(Now(), es, w) && AllRecover(before, bytes) && free <= old(free)
      ensures before != [] && before[0] == old(before)[0]
      ensures SameLive(old(tree), tree) && free + logBlocks == old(free) + old(logBlocks)
      ensures !room ==> Refused(asked, cpus, free) && asked.forLog && asked.num == LogRequest(logPages)
      ensures room ==> 0 < logPages <= old(logPages) + LogRequest(old(logPages))
    {
      ghost var s := Now();
      room, asked := true, Attempt([], 0, true);
      var full: bool := *;
      if full || logPages == 0 {
        FreeInWrite(s, es, w);
        var pages := LogRequest(logPages);
        var blocknr, got, lists := NewDataBlocks(pages);
        asked := Attempt(lists, pages, true);
        room := got > 0;
        if room {
          logBlocks := logBlocks + RunOf(blocknr, got);
          CollectInWrite(es, run, s, w);
          logPages := PagesLeft(logPages + pages);
        }
      }
    }

    /** How many pages the log has after a collection. */
    method PagesLeft(most: nat) returns (n: nat)
      requires 0 < most
      ensures 0 < n <= most
    {
      var any: int := *;
      n := if 0 < any <= most then any else most;
    }

    /** A collection in the middle of a write, after blocks were taken for the log. */
    method CollectInWrite(es: seq<Rec>, ghost run: set<nat>, ghost s: State, ghost w: Staging)
      requires Underway(s, es, w) && Now() == s.(free := free) && free <= s.free
      requires w.before == bytes && before != [] && AllRecover(before, bytes)
      requires forall b :: b in run ==> !Live(tree, b)
      modifies this`log, this`tree, this`invalid, this`before
      ensures Underway(Now(), es, w) && AllRecover(before, bytes)
      ensures before != [] && before[0] == old(before)[0]
      ensures SameLive(old(tree), tree)
    {
      FewerBlocks(s, es, w, free);
      ghost var t := Now();
      OutsideTheFile(t, es, w);
      ghost var to := MaybeCollect(es, w.taken + free + run);
      CollectedUnderway(t, Now(), es, w, to);
      MovedLive(t.tree, to);
    }

    /** nova_handle_head_tail_blocks: fill the parts of the first and the last new block that the
        write does not cover, from the old blocks or with zeros. */
    method HandleHeadTailBlocks(pos: nat, count: nat, blocknr: nat)
      requires 0 < count && Mapped(mem, tree)
      requires forall b :: InRun(b, blocknr, Span(pos, count)) ==> InDevice(mem, b) && !Live(tree, b)
      modifies this`mem
      ensures |mem| == |old(mem)|
      ensures EndsFilled(old(mem), mem, tree, pos, count, blocknr)
    {
      var offset := pos % PAGE;
      var n := (count + offset - 1) / PAGE + 1;
      var startBlk := pos / PAGE;
      var endBlk := startBlk + n - 1;
      assert InRun(blocknr, blocknr, n) && InRun(blocknr + n - 1, blocknr, n);
      if offset != 0 {
        CopyPartialBlock(startBlk, blocknr, 0, offset);
      }
      ghost var m1 := mem;
      var eblkOffset := (pos + count) % PAGE;
      if eblkOffset != 0 {
        CopyPartialBlock(endBlk, blocknr + n - 1, eblkOffset, PAGE);
      }
      BothEnds(old(mem), m1, mem, tree, pos, count, blocknr);
    }

    /** nova_copy_partial_block: bytes from..to-1 of page `blk` into block `b`, or zeros where the
        page has no block. */
    method CopyPartialBlock(blk: nat, b: nat, from: nat, to: nat)
      requires Mapped(mem, tree) && from <= to <= PAGE && InDevice(mem, b) && !Live(tree, b)
      modifies this`mem
      ensures |mem| == |old(mem)| && Mapped(mem, tree)
      ensures forall off :: ByteAt(mem, tree, off) == ByteAt(old(mem), tree, off)
      ensures forall c, i :: InDevice(mem, c) && 0 <= i < PAGE ==>
                Cell(mem, c, i) == if c == b && from <= i < to then ByteAt(old(mem), tree, blk * PAGE + i)
                                   else Cell(old(mem), c, i)
    {
      var part := OldBytes(blk, from, to);
      forall p | p in tree
        ensures BlockOf(tree[p], p) !in {b}
      {
        assert !Backs(tree, p, b);
      }
      ghost var was := mem;
      mem := Patch(mem, b, from, part);
      Unaffected(was, mem, tree, {b});
    }

    method OldBytes(blk: nat, from: nat, to: nat) returns (part: seq<byte>)
      requires Mapped(mem, tree) && from <= to <= PAGE
      ensures |part| == to - from
      ensures forall i :: 0 <= i < |part| ==> part[i] == ByteAt(mem, tree, blk * PAGE + from + i)
    {
      if blk in tree {
        var at := BlockOf(tree[blk], blk) * PAGE;
        assert InDevice(mem, BlockOf(tree[blk], blk));
        part := mem[at + from..at + to];
      } else {
        part := Zeros(to - from);
      }
    }

    /** Fill the new blocks of one chunk: the ends from the old file, the rest from the user. */
    method FillChunk(r: Rec, pos: nat, buf: seq<byte>, ghost c: seq<byte>, ghost target: seq<byte>)
      requires 0 < |buf| && Reads(mem, tree, c) && Chunk(c, target, pos, buf)
      requires r.e.Write? && r.e.pgoff == pos / PAGE && r.e.num == Span(pos, |buf|)
      requires forall b :: InRun(b, r.e.block, r.e.num) ==> InDevice(mem, b) && !Live(tree, b)
      modifies this`mem
      ensures SameOutside(old(mem), mem, RunOf(r.e.block, r.e.num))
      ensures forall p :: Covers(r, p) ==> PageHolds(mem, BlockOf(r, p), p, target)
    {
      var offset := pos % PAGE;
      ghost var m0 := mem;
      if offset != 0 || (offset + |buf|) % PAGE != 0 {
        HandleHeadTailBlocks(pos, |buf|, r.e.block);
      } else {
        NoEnds(mem, tree, pos, |buf|, r.e.block);
      }
      ghost var m1 := mem;
      assert InRun(r.e.block + r.e.num - 1, r.e.block, r.e.num);
      mem := Blit(mem, r.e.block * PAGE + offset, buf);
      FilledChunk(m0, m1, mem, tree, r, pos, buf, c, target);
    }

    /** One round of the write loop: allocate, fill, append a record. */
    method StageChunk(pos: nat, buf: seq<byte>, es: seq<Rec>, ghost w: Staging)
      returns (r: Option<Rec>, count: nat, ghost w': Staging, ghost asked: Attempt)
      requires 0 < |buf| && w.to == pos / PAGE
      requires Underway(Now(), es, w) && SizeAfter(size, es) <= Max(pos, size) && Chunk(w.before, w.target, pos, buf)
      requires w.before == bytes && before != [] && AllRecover(before, bytes)
      modifies this`mem, this`free, this`invalid, this`log, this`tree, this`before, this`logBlocks,
               this`logPages
      ensures SameOutside(old(mem), mem, old(free)) && free <= old(free)
      ensures AllRecover(before, bytes) && before != [] && before[0] == old(before)[0]
      ensures SameLive(old(tree), tree)
      ensures r.Some? ==> free + logBlocks + w'.taken == old(free) + old(logBlocks) + w.taken
      ensures r.None? ==> Underway(Now(), es, w) && w' == w && Refused(asked, cpus, free)
      ensures r.None? ==> if asked.forLog then asked.num == LogRequest(logPages) else asked.num <= Span(pos, |buf|)
      ensures r.Some? ==>
        && 0 < count <= |buf| && r.value.e.Write? && r.value.e.num == Span(pos, count)
        && (count < |buf| ==> (pos + count) % PAGE == 0)
        && r.value.e.size == Max(pos + count, size)
        && w' == w.(to := w.to + r.value.e.num, taken := w'.taken)
        && Underway(Now(), es + [r.value], w')
    {
      r, count, w' := None, 0, w;
      ghost var s := Now();
      FreeInWrite(s, es, w);
      var blocknr, got, lists := NewDataBlocks(Span(pos, |buf|));
      asked := Attempt(lists, Span(pos, |buf|), false);
      if got == 0 {
        return;
      }
      FewerBlocks(s, es, w, free);
      var room;
      room, asked := ExtendLog(es, RunOf(blocknr, got), w);
      if room {
        var rec;
        rec, count, w' := FillAndAppend(pos, buf, es, blocknr, got, w);
        r := Some(rec);
      }
    }

    /** The rest of the round, with `got` blocks at `blocknr` and room in the log. */
    method FillAndAppend(pos: nat, buf: seq<byte>, es: seq<Rec>, blocknr: nat, got: nat, ghost w: Staging)
      returns (rec: Rec, count: nat, ghost w': Staging)
      requires 0 < |buf| && w.to == pos / PAGE && 0 < got <= Span(pos, |buf|)
      requires Underway(Now(), es, w) && SizeAfter(size, es) <= Max(pos, size) && Chunk(w.before, w.target, pos, buf)
      requires forall b :: b in RunOf(blocknr, got) ==>
                 InDevice(mem, b) && !Live(tree, b) && b !in w.taken && b !in free
      modifies this`mem, this`invalid
      ensures SameOutside(old(mem), mem, free + RunOf(blocknr, got))
      ensures 0 < count <= |buf| && (count < |buf| ==> (pos + count) % PAGE == 0)
      ensures rec.e == Write(pos / PAGE, Span(pos, count), blocknr, Max(pos + count, size)) && rec.e.num == got
      ensures w' == w.(to := w.to + got, taken := w.taken + RunOf(blocknr, got)) && Underway(Now(), es + [rec], w')
    {
      ghost var run := RunOf(blocknr, got);
      count := ChunkBytes(pos, |buf|, got);
      ChunkFits(pos, |buf|, got, size);
      rec := Rec(NewAddr(log + es), Write(pos / PAGE, got, blocknr, Max(pos + count, size)));
      FirstPart(w.before, w.target, pos, buf, count);
      BlocksInHand(Now(), es, w, run);
      w' := PutChunk(rec, pos, buf[..count], es, Now().(free := free + run), w);
    }

    /** Fills the blocks that were allocated and appends the record. `s` is the state before. */
    method PutChunk(rec: Rec, pos: nat, part: seq<byte>, es: seq<Rec>, ghost s: State, ghost w: Staging)
      returns (ghost w': Staging)
      requires Underway(s, es, w) && w.to == pos / PAGE
      requires rec.e.Write? && rec.addr == NewAddr(log + es) && 0 < |part|
      requires rec.e == Write(pos / PAGE, Span(pos, |part|), rec.e.block, Max(pos + |part|, size))
      requires pos / PAGE + rec.e.num <= PagesOf(rec.e.size) && SizeAfter(size, es) <= Max(pos, size)
      requires RunOf(rec.e.block, rec.e.num) <= s.free && Now() == s.(free := s.free - RunOf(rec.e.block, rec.e.num))
      requires Chunk(w.before, w.target, pos, part)
      modifies this`mem, this`invalid
      ensures SameOutside(old(mem), mem, s.free)
      ensures w' == w.(to := w.to + rec.e.num, taken := w.taken + RunOf(rec.e.block, rec.e.num))
      ensures Underway(Now(), es + [rec], w')
    {
      ghost var run := RunOf(rec.e.block, rec.e.num);
      UnderwayParts(s, es, w);
      SoundParts(s, es, w.before);
      RunIsFree(s, rec.e.block, rec.e.num);
      FillChunk(rec, pos, part, w.before, w.target);
      invalid := invalid[rec.addr := 0];
      w' := w.(to := w.to + rec.e.num, taken := w.taken + run);
      RunIsCarried(rec);
      StageStep(s, Now(), es, rec, w, run);
    }

    /** One round of the write loop, and what is left to do after it. */
    method WriteRound(pos0: nat, buf: seq<byte>, pos: nat, rest: seq<byte>, numBlocks: nat, es: seq<Rec>,
                      ghost w: Staging)
      returns (ok: bool, pos': nat, rest': seq<byte>, numBlocks': nat, es': seq<Rec>, ghost w': Staging,
               ghost asked: Attempt)
      requires 0 < numBlocks && Writing(Now(), pos0, buf, pos, rest, numBlocks, es, w) && w.before == bytes
      requires before != [] && AllRecover(before, bytes)
      modifies this`mem, this`free, this`invalid, this`log, this`tree, this`before, this`logBlocks,
               this`logPages
      ensures SameLive(old(tree), tree)
      ensures ok ==> free + logBlocks + w'.taken == old(free) + old(logBlocks) + w.taken
      ensures !ok ==> Underway(Now(), es', w') && Refused(asked, cpus, free)
      ensures !ok ==> if asked.forLog then asked.num == LogRequest(logPages) else asked.num <= numBlocks
      ensures ok ==> Writing(Now(), pos0, buf, pos', rest', numBlocks', es', w') && numBlocks' < numBlocks
      ensures w' == w.(to := w'.to, taken := w'.taken)
      ensures SameOutside(old(mem), mem, old(free)) && free <= old(free)
      ensures AllRecover(before, bytes)
      ensures before != [] && before[0] == old(before)[0]
      ensures ok ==> before[|before| - 1] == Point(BlockCells(w'.taken))
    {
      WritingParts(Now(), pos0, buf, pos, rest, numBlocks, es, w);
      NextChunk(bytes, pos0, buf, pos, rest, numBlocks, w.to);
      var r, count, v, a := StageChunk(pos, rest, es, w);
      pos', rest', numBlocks', es', w', asked := pos, rest, numBlocks, es, v, a;
      ok := r.Some?;
      if ok {
        Advance(pos0, buf, pos, rest, numBlocks, w.to, count);
        pos', rest', numBlocks', es' := pos + count, rest[count..], numBlocks - r.value.e.num, es + [r.value];
        MakeWriting(Now(), pos0, buf, pos', rest', numBlocks', es', w');
        ghost var k := Point(BlockCells(w'.taken));
        StagingIsInvisible(Now(), es', w');
        RecoverMore(before, k, bytes);
        before := before + [k];
      }
    }

    /** The write loop: stage every page of the write.  Stops early when no block is free, for data or
        for the log. */
    method StageAll(pos0: nat, buf: seq<byte>, ghost w0: Staging)
      returns (es: seq<Rec>, done: bool, ghost w: Staging, ghost asked: Attempt)
      requires Valid() && buf != [] && before == [Point(iset{})] && AllRecover(before, bytes)
      requires w0 == Staging(pos0 / PAGE, pos0 / PAGE, {}, bytes, Overwritten(bytes, pos0, buf))
      modifies this`mem, this`free, this`invalid, this`log, this`tree, this`before, this`logBlocks,
               this`logPages
      ensures Underway(Now(), es, w) && w == w0.(to := w.to, taken := w.taken)
      ensures SameLive(old(tree), tree)
      ensures done ==> free + logBlocks + w.taken == old(free) + old(logBlocks)
      ensures done ==> w.to == pos0 / PAGE + Span(pos0, |buf|) && SizeAfter(size, es) == Max(pos0 + |buf|, size)
      ensures SameOutside(old(mem), mem, old(free))
      ensures AllRecover(before, bytes)
      ensures before != [] && before[0] == old(before)[0]
      ensures done ==> before[|before| - 1] == Point(BlockCells(w.taken))
      ensures !done ==> Refused(asked, cpus, free)
      ensures !done ==> if asked.forLog then asked.num == LogRequest(logPages) else asked.num <= Span(pos0, |buf|)
    {
      var pos, rest := pos0, buf;
      var numBlocks: nat := Span(pos, |rest|);
      es, w, asked := [], w0, Attempt([], 0, false);
      StartWriting(Now(), pos0, buf, bytes, w0);
      while numBlocks > 0
        invariant Writing(Now(), pos0, buf, pos, rest, numBlocks, es, w) && w == w0.(to := w.to, taken := w.taken)
        invariant free <= old(free) && SameOutside(old(mem), mem, old(free))
        invariant SameLive(old(tree), tree) && free + logBlocks + w.taken == old(free) + old(logBlocks)
        invariant before != [] && before[0] == old(before)[0] && AllRecover(before, bytes)
        invariant numBlocks <= Span(pos0, |buf|)
        invariant numBlocks < Span(pos0, |buf|) ==> before[|before| - 1] == Point(BlockCells(w.taken))
        decreases numBlocks
      {
        done, pos, rest, numBlocks, es, w, asked := WriteRound(pos0, buf, pos, rest, numBlocks, es, w);
        if !done {
          return;
        }
      }
      DoneWriting(Now(), pos0, buf, pos, rest, es, w);
      done := true;
    }

    /** Puts on record what a crash would leave now that the log of `t` is committed. */
    ghost method RecordCommitted(t: State, c: seq<byte>)
      requires t.mem == mem && t.log == log && Sound(t, [], c) && AllRecover(after, c)
      requires HasCounter(log, invalid) && Grown(Books(Now()), Books(t))
      modifies this`after
      ensures after == old(after) + [Point(iset{})] && AllRecover(after, c)
    {
      CommittedSurvives(t, Books(Now()), c);
      RecoverMore(after, Point(iset{}), c);
      after := after + [Point(iset{})];
    }

    /** nova_reassign_file_tree: after the tail store, hand the pages over to the new records and
        free the blocks they replace.  `t` is the state this leads to, a file that reads `c`. */
    method ReassignFileTree(es: seq<Rec>, ghost was: Ledger, ghost t: State, ghost c: seq<byte>)
      requires Books(Now()) == was && Takeable(mem, log, was, es)
      requires t.mem == mem && t.log == log && Sound(t, [], c) && AllRecover(after, c)
      requires (forall i :: 0 <= i < |es| ==> es[i].e.Write?) && Books(t) == TakeAll(was, es)
      requires after == [Point(iset{})]
      modifies this`tree, this`invalid, this`free, this`after
      ensures Books(Now()) == Books(t)
      ensures AllRecover(after, c)
      ensures after != [] && after[0] == old(after)[0] && after[|after| - 1] == Point(iset{})
    {
      NothingTaken(was, es);
      for k := 0 to |es|
        invariant TakenSoFar(was, es, k, Books(Now()))
        invariant AllRecover(after, c)
        invariant after != [] && after[0] == old(after)[0] && after[|after| - 1] == Point(iset{})
      {
        ghost var l := Books(Now());
        MayTakeNext(mem, log, was, es, k, l);
        AssignWriteEntry(es[k], true);
        TookNext(mem, log, was, es, k, l, Books(Now()), Books(t));
        RecordCommitted(t, c);
      }
      AllTaken(was, es, Books(Now()));
    }

    /** The tail store that makes the staged records part of the log, and the index update. */
    method CommitWrite(es: seq<Rec>, end: nat, ghost w: Staging)
      requires Underway(Now(), es, w) && SizeAfter(size, es) == Max(end, size) == |w.target|
      requires forall off: nat :: !(w.from <= off / PAGE < w.to) ==> At(w.before, off) == At(w.target, off)
      requires after == []
      modifies this`log, this`tree, this`invalid, this`free, this`size, this`after
      ensures Sound(Now(), [], w.target) && AllRecover(after, w.target)
      ensures SameBlocks(old(Now()), logBlocks + w.taken, Now(), logBlocks)
      ensures after != [] && after[0] == old(Point(iset{})).(log := old(log) + es)
      ensures after[|after| - 1] == Point(iset{})
    {
      CommitPlan(Now(), es, w);
      ghost var was, t := Books(Now()), Committed(Now(), es);
      CommitPoint(Now(), es, w, was);
      CommitSameBlocks(Now(), es, w, logBlocks);
      log := log + es;
      after := [Point(iset{})];
      ReassignFileTree(es, was, t, w.target);
      if end > size {
        size := end;
      }
      assert Now() == t;
    }

    /** An operation starts: so far nothing has happened. */
    ghost method StartTrace()
      requires Valid()
      modifies this`before, this`after
      ensures before == [Point(iset{})] && after == [] && AllRecover(before, bytes) && AllRecover(after, bytes)
    {
      assert HasCounter(log, invalid) by {
        SoundParts(Now(), [], bytes);
      }
      CommittedSurvives(Now(), Books(Now()), bytes);
      NoneToRecover(bytes);
      RecoverMore([], Point(iset{}), bytes);
      before, after := [Point(iset{})], [];
    }

    /** nova_cow_file_write.  A write that cannot get all its blocks leaves the file as it was.  It
        fails only if a request for blocks was turned down, for its data or for its log. */
    method CowFileWrite(ppos: nat, buf: seq<byte>, append: bool) returns (written: Option<nat>, ghost asked: Attempt)
      requires Valid()
      modifies this
      ensures Valid() && exact == old(exact)
      ensures written.Some? ==>
                written.value == |buf| && bytes == Overwritten(old(bytes), if append then |old(bytes)| else ppos, buf)
      ensures written.None? ==> bytes == old(bytes) && buf != []
      ensures written.None? ==> Refused(asked, cpus, free) && |free| <= cpus * (asked.num - 1)
      ensures written.None? ==>
                if asked.forLog then asked.num == LogRequest(logPages)
                else asked.num <= Span(if append then |old(bytes)| else ppos, |buf|)
      ensures SameOutside(old(mem), mem, old(free))
      ensures written.Some? ==> SameBlocks(old(Now()), old(logBlocks), Now(), logBlocks)
      ensures AllRecover(before, old(bytes)) && AllRecover(after, bytes)
      ensures before != [] && before[0] == old(Point(iset{}))
      ensures written.Some? && buf != [] ==> OneTailStore(before, after, Point(iset{}))
    {
      StartTrace();
      asked := Attempt([], 0, false);
      if |buf| == 0 {
        written := Some(0);
        return;
      }
      SoundSize(Now(), [], bytes);
      var done, a := WriteAt(if append then size else ppos, buf);
      written, asked := if done then Some(|buf|) else None, a;
      if !done {
        RefusedMeansFew(asked, cpus, free);
      }
    }

    /** The write at a known position. */
    method WriteAt(pos: nat, buf: seq<byte>) returns (done: bool, ghost asked: Attempt)
      requires Valid() && buf != [] && before == [Point(iset{})] && after == [] && AllRecover(before, bytes)
      modifies this
      ensures Valid() && exact == old(exact)
      ensures bytes == if done then Overwritten(old(bytes), pos, buf) else old(bytes)
      ensures SameOutside(old(mem), mem, old(free))
      ensures AllRecover(before, old(bytes)) && (done ==> AllRecover(after, bytes)) && (!done ==> after == [])
      ensures before != [] && before[0] == old(before)[0]
      ensures done ==> OneTailStore(before, after, Point(iset{}))
      ensures !done ==> Refused(asked, cpus, free)
      ensures !done ==> if asked.forLog then asked.num == LogRequest(logPages) else asked.num <= Span(pos, |buf|)
      ensures done ==> SameBlocks(old(Now()), old(logBlocks), Now(), logBlocks)
    {
      SoundSize(Now(), [], bytes);
      ghost var s0, l0 := Now(), logBlocks;
      ghost var target := Overwritten(bytes, pos, buf);
      var es, ok, w, a := StageAll(pos, buf, Staging(pos / PAGE, pos / PAGE, {}, bytes, target));
      done, asked := ok, a;
      if !done {
        AbandonedIsSound(Now(), es, w);
        return;
      }
      OutsidePages(bytes, pos, buf);
      ghost var s1 := Now();
      BlocksMove(s0, l0, s1, logBlocks + w.taken);
      CommitWrite(es, pos + |buf|, w);
      SameBlocksTwice(s0, l0, s1, logBlocks + w.taken, Now(), logBlocks);
      bytes := target;
    }

    // -------------------------------------------------------------------------------------
    // Attributes and truncation
    // -------------------------------------------------------------------------------------

    /** Log space for a record, at an address that no record had at any moment of the collection this
        may cause. */
    method PrepareRecord(e: Entry) returns (r: Rec)
      requires Valid()
      modifies this`log, this`tree, this`invalid, this`before, this`after, this`logPages
      ensures Valid() && Now() == old(Now()).(log := log, tree := tree, invalid := invalid) && SameLive(old(tree), tree)
      ensures before != [] && before[0] == old(Point(iset{})) && AllRecover(before, bytes)
      ensures after == [] && AllRecover(after, bytes)
      ensures r.e == e && r !in log && NotYet(before, r) && forall i :: 0 <= i < |log| ==> log[i].addr < r.addr
      ensures 0 < logPages <= old(logPages) + LogRequest(old(logPages))
    {
      StartTrace();
      var was := log;
      ghost var to := MaybeCollect([], {});
      r := Rec(NewAddr(was + log), e);
      BeyondBoth(was, log, r, before);
      MovedLive(old(tree), to);
      logPages := PagesLeft(logPages + LogRequest(logPages));
    }

    /** nova_notify_change without a size, and nova_append_link_change_entry: a record that
        repeats the size or has none.  `s` is the file after the collection that the append may
        have caused. */
    method AppendAttributes(e: Entry) returns (r: Rec, ghost s: State)
      requires Valid()
      requires e.LinkChange? || (e.SetAttr? && !e.setsSize && e.size == size)
      modifies this`log, this`tree, this`invalid, this`before, this`after, this`logPages
      ensures Valid() && r.e == e && Now() == s.(log := s.log + [r], invalid := s.invalid[r.addr := 0])
      ensures Sound(s, [], bytes) && s == old(Now()).(log := s.log, tree := s.tree, invalid := s.invalid)
      ensures AllRecover(before, bytes) && before != [] && before[0] == old(Point(iset{}))
      ensures AllRecover(after, bytes) && OneTailStore(before, after, Point(iset{}))
      ensures NotYet(before, r)
      ensures Meaning(log) == match e
                              case SetAttr(_, _, attrs) => Meaning(s.log).(attrs := attrs)
                              case _ => Meaning(s.log).(links := e.links)
    {
      r := PrepareRecord(e);
      s := Now();
      AppendedMeans(s, r, bytes);
      AppendedIsSound(s, r, bytes);
      CommitRecord(r);
      assert HasCounter(log, invalid) by {
        SoundParts(Now(), [], bytes);
      }
      RecordCommitted(Now(), bytes);
    }

    /** nova_clear_last_page_tail: zero the last page beyond the new size, so that a later growth
        does not bring old bytes back. */
    method ClearLastPageTail(newsize: nat)
      requires Mapped(mem, tree) && newsize != size
      modifies this`mem
      ensures mem == Cleared(old(mem), tree, newsize, size)
    {
      var offset := newsize % PAGE;
      if offset == 0 || newsize > size {
        return;
      }
      var pgoff := newsize / PAGE;
      if pgoff in tree {
        mem := Patch(mem, BlockOf(tree[pgoff], pgoff), offset, Zeros(PAGE - offset));
      }
    }

    /** nova_notify_change with a size, nova_setsize and nova_truncate_file_blocks: the record is
        committed first, then the tail of the last page is cleared and the cut pages are freed.
        A crash in between may leave old bytes beyond the new end; it cannot if and only if the
        file was zero there. */
    method Truncate(newsize: nat, attrs: nat) returns (ghost r: Rec)
      requires Valid()
      modifies this
      ensures Valid() && exact == old(exact) && bytes == Resized(old(bytes), newsize)
      ensures AllRecover(before, old(bytes)) && before != [] && before[0] == old(Point(iset{}))
      ensures OneTailStore(before, after, Point(iset{}))
      ensures CutTrace(after, old(bytes), newsize)
      ensures SameBlocks(old(Now()), logBlocks, Now(), logBlocks) && logBlocks == old(logBlocks)
      ensures r.e == SetAttr(true, newsize, attrs) && NotYet(before, r)
      ensures Meaning(log).attrs == attrs && Meaning(log).size == newsize
      ensures forall i :: 0 <= i < |after| ==> after[i].log == log && Tells(after[i], attrs, newsize)
    {
      var rec := PrepareRecord(SetAttr(true, newsize, attrs));
      r := rec;
      ghost var s, c := Now(), bytes;
      CommitRecord(rec);
      TruncatePlan(s, r, newsize, c);
      ApplySize(newsize, s, r);
      BlocksMove(old(Now()), logBlocks, s, logBlocks);
      TruncateSameBlocks(s, c, r, newsize, logBlocks);
      SameBlocksTwice(old(Now()), logBlocks, s, logBlocks, Now(), logBlocks);
      bytes := Resized(bytes, newsize);
      AllTell(after, log, r);
      TruncateTrace(s, r, newsize, c, Now(), after);
    }

    /** Writes `r` beyond the tail and moves the tail over it. */
    method CommitRecord(r: Rec)
      requires Valid() && AllRecover(before, bytes)
      requires forall i :: 0 <= i < |log| ==> log[i].addr < r.addr
      modifies this`invalid, this`log, this`before
      ensures Now() == old(Now()).(log := old(log) + [r], invalid := old(invalid)[r.addr := 0])
      ensures AllRecover(before, bytes) && before == old(before) + [old(Point(iset{})).(invalid := invalid)]
      ensures old(NotYet(before, r)) && r !in old(log) ==> NotYet(before, r)
      ensures TailStore(before[|before| - 1], Point(iset{}))
    {
      ghost var s := Now();
      invalid := invalid[r.addr := 0];
      WrittenRecord(s, r, bytes);
      RecoverMore(before, Point(iset{}), bytes);
      before := before + [Point(iset{})];
      log := log + [r];
    }

    /** nova_setsize, after the record `r` is committed to the file `s`. */
    method ApplySize(newsize: nat, ghost s: State, ghost r: Rec)
      requires Mapped(s.mem, s.tree) && Now() == s.(log := s.log + [r], invalid := s.invalid[r.addr := 0])
      requires MayCut(s, r, newsize)
      modifies this`mem, this`size, this`tree, this`invalid, this`free, this`after
      ensures Now() == Truncated(s, r, newsize)
      ensures |after| == 3 && after[0] == UnclearedPoint(s, r) && after[2] == Point(iset{})
      ensures after[1] == after[0].(mem := mem, torn := TailCells(s, newsize))
    {
      MayCutParts(s, r, newsize);
      ghost var k0 := Point(iset{});
      if newsize != size {
        ClearLastPageTail(newsize);
      }
      ghost var k1 := Point(TailCells(s, newsize));
      if newsize != size {
        var oldsize := size;
        size := newsize;
        TruncateFileBlocks(newsize, oldsize, Ledger(s.tree, s.invalid[r.addr := 0], s.free));
      }
      after := [k0, k1, Point(iset{})];
    }

    /** nova_truncate_file_blocks */
    method TruncateFileBlocks(start: nat, end: nat, ghost was: Ledger)
      requires Books(Now()) == was && Booked(mem, log, was) && Counted(log, was.tree, was.invalid, exact)
      modifies this`tree, this`invalid, this`free
      ensures Books(Now()) == DropRange(was, PagesOf(start), PagesOf(end), true)
    {
      var first := (start + PAGE - 1) / PAGE;
      if end == 0 {
        return;
      }
      var last := (end - 1) / PAGE;
      if first > last {
        return;
      }
      BookedIndex(mem, log, was);
      DeleteFileTree(first, last, true);
    }

    // -------------------------------------------------------------------------------------
    // Reading
    // -------------------------------------------------------------------------------------

    /** do_dax_mapping_read.  A record whose counter is zero is copied in one go.  The bytes are
        those of the file if every round follows the index, which exact counters ensure. */
    method Read(pos: nat, len: nat) returns (out: seq<byte>)
      requires Valid()
      ensures Fetches(Now(), pos, ReadEnd(|bytes|, pos, len), out)
      ensures FollowsIndex(Now(), pos, ReadEnd(|bytes|, pos, len)) ==> out == ReadOf(bytes, pos, len)
      ensures exact ==> out == ReadOf(bytes, pos, len)
    {
      SoundSize(Now(), [], bytes);
      ghost var end := ReadEnd(size, pos, len);
      FetchNothing(Now(), bytes, pos, end);
      out := [];
      var n := len;
      if pos <= size && n > size - pos {
        n := size - pos;
      }
      if size != 0 && n != 0 {
        out := ReadLoop(pos, n, pos / PAGE, pos % PAGE, end, Now());
      }
      RightRead(Now(), bytes, pos, len, end, out);
    }

    method ReadLoop(pos: nat, n: nat, first: nat, within: nat, ghost end: nat, ghost s: State) returns (out: seq<byte>)
      requires s == Now() && FetchesSoFar(s, pos, pos, end, []) && 0 < size && IsAt(first, within, pos)
      requires end == if pos < size then pos + n else pos
      requires pos < size ==> end <= size
      ensures Fetches(s, pos, end, out)
    {
      out := [];
      var index, offset := first, within;
      ghost var cur := pos;
      while |out| < n
        invariant cur == pos + |out| <= end && IsAt(index, offset, cur)
        invariant FetchesSoFar(s, pos, cur, end, out)
      {
        var stop := AtEnd(index, offset, cur);
        if stop {
          break;
        }
        out, index, offset, cur := ReadRound(index, offset, n - |out|, cur, pos, end, out, s);
      }
      FetchedToEnd(s, pos, end, out);
    }

    /** The test that ends the read loop at the end of the file. */
    method AtEnd(index: nat, offset: nat, ghost cur: nat) returns (stop: bool)
      requires 0 < size && IsAt(index, offset, cur)
      ensures stop <==> size <= cur
    {
      var endIndex := (size - 1) / PAGE;
      if index >= endIndex {
        if index > endIndex {
          return true;
        }
        var inLast := (size - 1) % PAGE + 1;
        if inLast <= offset {
          return true;
        }
      }
      return false;
    }

    /** One round of the read loop, and where the next one begins. */
    method ReadRound(index: nat, offset: nat, limit: nat, ghost cur: nat, ghost pos: nat, ghost end: nat,
                     out: seq<byte>, ghost s: State)
      returns (out': seq<byte>, index': nat, offset': nat, ghost cur': nat)
      requires s == Now() && 0 < limit == end - cur && IsAt(index, offset, cur) && FetchesSoFar(s, pos, cur, end, out)
      ensures cur < cur' <= end && |out'| == |out| + cur' - cur && FetchesSoFar(s, pos, cur', end, out')
      ensures IsAt(index', offset', cur')
    {
      CanRead(s, pos, cur, end, out);
      var chunk := ReadChunk(index, offset, limit, cur);
      NextRound(s, pos, cur, end, out, chunk);
      out', cur' := out + chunk, cur + |chunk|;
      index', offset' := index + (offset + |chunk|) / PAGE, (offset + |chunk|) % PAGE;
    }

    /** The bytes that one round of the read loop copies. */
    method ReadChunk(index: nat, offset: nat, limit: nat, ghost cur: nat) returns (chunk: seq<byte>)
      requires Readable(Now()) && 0 < limit && IsAt(index, offset, cur)
      ensures chunk == Fetched(Now(), cur, limit)
    {
      var nr: nat;
      if index !in tree {
        nr := PAGE - offset;
        nr := if nr > limit then limit else nr;
        chunk := Zeros(nr);
      } else {
        var e := tree[index];
        var pages := if invalid[e.addr] == 0 then e.e.num - (index - e.e.pgoff) else 1;
        nr := pages * PAGE - offset;
        nr := if nr > limit then limit else nr;
        var at := BlockOf(e, index) * PAGE + offset;
        RoundFits(Now(), cur, limit);
        chunk := mem[at..at + nr];
      }
    }

    /** With exact counters, what was written is what is read. */
    method WriteThenRead(pos: nat, buf: seq<byte>) returns (ok: bool, out: seq<byte>, ghost asked: Attempt)
      requires Valid() && exact
      modifies this
      ensures Valid() && exact && bytes == if ok then Overwritten(old(bytes), pos, buf) else old(bytes)
      ensures ok ==> out == buf
      ensures !ok ==> Refused(asked, cpus, free)
    {
      var written, a := CowFileWrite(pos, buf, false);
      ok, out, asked := written.Some?, [], a;
      if ok && buf != [] {
        ReadAfterWrite(old(bytes), pos, buf, pos, |buf|);
        out := Read(pos, |buf|);
      }
    }

    // -------------------------------------------------------------------------------------
    // Mounting
    // -------------------------------------------------------------------------------------

    /** nova_rebuild_file_inode_tree: `inodeSize`, `inodeAttrs` and `inodeLinks` are what the inode
        happened to hold. */
    method RebuildFileInodeTree(inodeSize: nat, inodeAttrs: nat, inodeLinks: nat) returns (attrs: nat, links: nat)
      requires HasCounter(log, invalid) && DistinctAddrs(log)
      modifies this`tree, this`size, this`invalid, this`free
      ensures invalid == old(invalid) && free == old(free)
      ensures View(tree, size, attrs, links) ==
              Replay(View(map[], inodeSize, inodeAttrs, inodeLinks), log, FullCounters(log, invalid))
    {
      tree, size, attrs, links := map[], inodeSize, inodeAttrs, inodeLinks;
      ghost var v0, marks := View(map[], inodeSize, inodeAttrs, inodeLinks), FullCounters(log, invalid);
      for i := 0 to |log|
        invariant View(tree, size, attrs, links) == Replay(v0, log[..i], marks)
        invariant invalid == old(invalid) && free == old(free)
      {
        var r := log[i];
        assert log[..i + 1][..i] == log[..i];
        IndexCovers(v0, log[..i], marks);
        match r.e
        case SetAttr(_, newsize, newattrs) =>
          ApplySetattrEntry(newsize);
          attrs := newattrs;
        case LinkChange(newlinks) =>
          links := newlinks;
        case Write(_, num, _, newsize) =>
          MarkedWhenFull(log, invalid, i);
          if num != invalid[r.addr] {
            AssignWriteEntry(r, false);
          }
          size := newsize;
      }
      assert log[..|log|] == log;
    }

    /** nova_apply_setattr_entry, as far as index and size go. */
    method ApplySetattrEntry(newsize: nat)
      requires forall p :: p in tree ==> Covers(tree[p], p)
      modifies this`tree, this`size, this`invalid, this`free
      ensures invalid == old(invalid) && free == old(free)
      ensures tree == if old(size) > newsize then Cut(old(tree), PagesOf(newsize), PagesOf(old(size))) else old(tree)
      ensures size == newsize
    {
      if size > newsize {
        var first := (newsize + PAGE - 1) / PAGE;
        var last := (size - 1) / PAGE;
        if first <= last {
          DeleteFileTree(first, last, false);
        } else {
          assert Cut(tree, PagesOf(newsize), PagesOf(size)) == tree;
        }
      }
      size := newsize;
    }

    /** A crash at `k`, a moment that recovers to `c` at least up to its end, followed by a mount
        that finds `f`. */
    method Remount(f: Found, inodeAttrs: nat, inodeLinks: nat, ghost k: CrashPoint, ghost c: seq<byte>)
      returns (attrs: nat, links: nat)
      requires (RecoversTo(k, c) || RecoversShort(k, c)) && Finds(k, f)
      modifies this
      ensures Short(Now(), bytes) && bytes == c && log == k.log && !exact
      ensures RecoversTo(k, c) ==> Valid()
      ensures View(tree, size, attrs, links) == Mounted(f, inodeAttrs, inodeLinks)
    {
      FoundIsShort(k, c, f);
      mem, log, invalid, free := f.mem, f.log, f.invalid, f.unused;
      var counted: int := *;
      logPages := if counted > 0 then counted else 0;
      attrs, links := RebuildFileInodeTree(f.inodeSize, inodeAttrs, inodeLinks);
      FieldsAside(View(map[], f.inodeSize, 0, 0), View(map[], f.inodeSize, inodeAttrs, inodeLinks), f.log,
                  FullCounters(f.log, f.invalid));
      bytes, exact := c, false;
      assert Now() == Rebuilt(f);
    }

    /** A crash at any moment of the last operation: size and bytes are those before it or those
        now.  The file is sound again, unless the moment lies in a truncate after its commit and
        the rest of the last page was not zero. */
    method CrashAndRemount(f: Found, inodeAttrs: nat, inodeLinks: nat, ghost i: nat, ghost was: seq<byte>)
      returns (attrs: nat, links: nat)
      requires AllRecover(before, was) && (AllRecover(after, bytes) || AllShort(after, bytes))
      requires i < |before| + |after| && Finds((before + after)[i], f)
      modifies this
      ensures Short(Now(), bytes) && bytes == (if i < |old(before)| then was else old(bytes)) && log == f.log
      ensures i < |old(before)| || RecoversTo(old(after)[i - |old(before)|], old(bytes)) ==> Valid()
      ensures View(tree, size, attrs, links) == Mounted(f, inodeAttrs, inodeLinks)
    {
      MomentRecovers(before, after, was, bytes, i);
      attrs, links := Remount(f, inodeAttrs, inodeLinks, (before + after)[i], if i < |before| then was else bytes);
    }
  }
}
