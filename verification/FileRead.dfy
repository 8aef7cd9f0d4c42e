/**
 Reading a file through its index and its counters: what the read loop fetches, and exactly when
 that is what the file holds.
 */
module FileRead {
  import opened FileLog
  import opened FileData
  import opened FileBooks
  import opened FileStage
  import opened FileState
  import opened FileCrash

  /** What POSIX expects of a read: as many bytes as were asked for, or all up to the end. */
  function ReadOf(c: seq<byte>, pos: nat, len: nat): (r: seq<byte>)
    ensures pos >= |c| ==> r == []
    ensures pos < |c| ==> |r| == if len < |c| - pos then len else |c| - pos
    ensures forall i :: 0 <= i < |r| ==> r[i] == At(c, pos + i)
  {
    if pos >= |c| then [] else c[pos..ReadEnd(|c|, pos, len)]
  }

  /** Where a read of a file of `size` bytes ends. */
  function ReadEnd(size: nat, pos: nat, len: nat): (end: nat)
    ensures pos <= end <= pos + len && (pos < size ==> end <= size && (end < pos + len ==> end == size))
  {
    if pos >= size then pos else if len > size - pos then size else pos + len
  }

  /** What a read finds after a write: the new bytes where they are, the old ones elsewhere. */
  lemma ReadAfterWrite(c: seq<byte>, pos: nat, buf: seq<byte>, from: nat, len: nat)
    requires buf != []
    ensures ReadOf(Overwritten(c, pos, buf), pos, |buf|) == buf
    ensures var d := Overwritten(c, pos, buf);
            forall i :: 0 <= i < |ReadOf(d, from, len)| ==>
              ReadOf(d, from, len)[i] == if pos <= from + i < pos + |buf| then buf[from + i - pos] else At(c, from + i)
  {
    var d := Overwritten(c, pos, buf);
    forall i | 0 <= i < |buf|
      ensures ReadOf(d, pos, |buf|)[i] == buf[i]
    {
      assert At(d, pos + i) == buf[i];
    }
  }

  /** Every record in the index covers its page, has a counter and lies on the device. */
  ghost predicate Readable(s: State) {
    forall p :: p in s.tree ==>
      && Covers(s.tree[p], p) && s.tree[p].addr in s.invalid
      && forall q :: Covers(s.tree[p], q) ==> InDevice(s.mem, BlockOf(s.tree[p], q))
  }

  lemma SoundIsReadable(s: State, c: seq<byte>)
    requires SoundFile(s, [], c)
    ensures Readable(s)
  {
    forall p | p in s.tree
      ensures s.tree[p] in s.log && Covers(s.tree[p], p)
    {
      assert Backed(s.mem, s.log, Books(s), p);
    }
  }

  /** How many pages the round takes that begins at page `index`: all that are left of a record whose
      counter is zero, one otherwise. */
  ghost function RunPages(s: State, index: nat): (n: nat)
    requires Readable(s) && index in s.tree
    ensures n > 0 && forall q :: index <= q < index + n ==> Covers(s.tree[index], q)
  {
    var r := s.tree[index];
    if s.invalid[r.addr] == 0 then r.e.num - (index - r.e.pgoff) else 1
  }

  /** How many bytes the round takes that begins at byte `cur` and may take `limit`. */
  ghost function RoundLen(s: State, cur: nat, limit: nat): (n: nat)
    requires Readable(s) && 0 < limit
    ensures 0 < n <= limit
  {
    var pages := if cur / PAGE in s.tree then RunPages(s, cur / PAGE) else 1;
    if pages * PAGE - cur % PAGE > limit then limit else pages * PAGE - cur % PAGE
  }

  /** Where in NVMM the round finds byte `off`: in the blocks of the record of its first page. */
  ghost function Place(s: State, cur: nat, off: nat): nat
    requires Readable(s) && cur / PAGE in s.tree && cur <= off
  {
    BlockOf(s.tree[cur / PAGE], cur / PAGE) * PAGE + cur % PAGE + (off - cur)
  }

  lemma PlaceFits(s: State, cur: nat, limit: nat, off: nat)
    requires Readable(s) && 0 < limit && cur / PAGE in s.tree && cur <= off < cur + RoundLen(s, cur, limit)
    ensures Covers(s.tree[cur / PAGE], off / PAGE)
    ensures var b := BlockOf(s.tree[cur / PAGE], off / PAGE);
            InDevice(s.mem, b) && Place(s, cur, off) == b * PAGE + off % PAGE
  {
    var index: nat := cur / PAGE;
    assert off < (index + RunPages(s, index)) * PAGE;
    assert index <= off / PAGE < index + RunPages(s, index);
  }

  lemma RoundFits(s: State, cur: nat, limit: nat)
    requires Readable(s) && 0 < limit && cur / PAGE in s.tree
    ensures Place(s, cur, cur) + RoundLen(s, cur, limit) <= |s.mem|
  {
    PlaceFits(s, cur, limit, cur + RoundLen(s, cur, limit) - 1);
  }

  /** The bytes one round of the read loop fetches. */
  ghost function Fetched(s: State, cur: nat, limit: nat): (r: seq<byte>)
    requires Readable(s) && 0 < limit
    ensures |r| == RoundLen(s, cur, limit)
  {
    if cur / PAGE in s.tree then
      RoundFits(s, cur, limit);
      s.mem[Place(s, cur, cur)..Place(s, cur, cur) + RoundLen(s, cur, limit)]
    else Zeros(RoundLen(s, cur, limit))
  }

  lemma FetchedAt(s: State, cur: nat, limit: nat, off: nat, b: nat)
    requires Readable(s) && 0 < limit && cur / PAGE in s.tree && cur <= off < cur + RoundLen(s, cur, limit)
    requires Covers(s.tree[cur / PAGE], off / PAGE) && b == BlockOf(s.tree[cur / PAGE], off / PAGE)
    ensures InDevice(s.mem, b) && Fetched(s, cur, limit)[off - cur] == Cell(s.mem, b, off % PAGE)
  {
    PlaceFits(s, cur, limit, off);
    RoundFits(s, cur, limit);
    var at := Place(s, cur, cur);
    assert s.mem[at..at + RoundLen(s, cur, limit)][off - cur] == s.mem[at + (off - cur)];
  }

  /** The index maps every page of the round to the block that the record of the first page has for
      it: the record still owns the page, or its block has come back to that page. */
  ghost predicate Followed(s: State, cur: nat, limit: nat)
    requires Readable(s) && 0 < limit
  {
    var index := cur / PAGE;
    index in s.tree ==>
      forall q :: index < q && q * PAGE < cur + RoundLen(s, cur, limit) && Covers(s.tree[index], q) ==>
        Backs(s.tree, q, BlockOf(s.tree[index], q))
  }

  lemma RoundByte(s: State, c: seq<byte>, cur: nat, limit: nat, off: nat)
    requires Sound(s, [], c) && Readable(s) && 0 < limit && cur + limit <= |c| && Followed(s, cur, limit)
    requires cur <= off < cur + RoundLen(s, cur, limit)
    ensures Fetched(s, cur, limit)[off - cur] == c[off]
  {
    assert Mapped(s.mem, s.tree) && ByteAt(s.mem, s.tree, off) == At(c, off) by {
      SoundParts(s, [], c);
    }
    var index: nat, q: nat := cur / PAGE, off / PAGE;
    if index in s.tree {
      PlaceFits(s, cur, limit, off);
      FetchedAt(s, cur, limit, off, BlockOf(s.tree[index], q));
      assert index < q ==> q * PAGE < cur + RoundLen(s, cur, limit);
      assert Backs(s.tree, q, BlockOf(s.tree[index], q));
    } else {
      assert off / PAGE == index;
    }
  }

  /** A round that follows the index fetches the bytes of the file. */
  lemma RoundIsRight(s: State, c: seq<byte>, cur: nat, limit: nat)
    requires Sound(s, [], c) && Readable(s) && 0 < limit && cur + limit <= |c| && Followed(s, cur, limit)
    ensures Fetched(s, cur, limit) == c[cur..cur + RoundLen(s, cur, limit)]
  {
    forall j | 0 <= j < RoundLen(s, cur, limit)
      ensures Fetched(s, cur, limit)[j] == c[cur + j]
    {
      RoundByte(s, c, cur, limit, cur + j);
    }
  }

  // ---------------------------------------------------------------------------------------
  // A round that leaves the index
  // ---------------------------------------------------------------------------------------

  /** The first byte of block `b` changed to `v`. */
  ghost function Poked(mem: seq<byte>, b: nat, v: byte): (m: seq<byte>)
    requires InDevice(mem, b)
    ensures |m| == |mem| && forall c, i :: InDevice(mem, c) && 0 <= i < PAGE ==>
              Cell(m, c, i) == if c == b && i == 0 then v else Cell(mem, c, i)
  {
    Patch(mem, b, 0, [v])
  }

  lemma PokedFrame(s: State, c: seq<byte>, b: nat, v: byte)
    requires SoundFile(s, [], c) && InDevice(s.mem, b)
    ensures var m := Poked(s.mem, b, v); Booked(m, s.log, Books(s)) && Housed(m, s.log) && Mapped(m, s.tree)
  {
    BookedElsewhere(s.mem, Poked(s.mem, b, v), s.log, Books(s));
  }

  /** A block outside the file may hold anything. */
  lemma PokeUnused(s: State, c: seq<byte>, b: nat, v: byte)
    requires SoundFile(s, [], c) && InDevice(s.mem, b) && !Live(s.tree, b)
    ensures Sound(s.(mem := Poked(s.mem, b, v)), [], c)
  {
    var m := Poked(s.mem, b, v);
    PokedFrame(s, c, b, v);
    forall off: nat
      ensures ByteAt(m, s.tree, off) == At(c, off)
    {
      assert ByteAt(s.mem, s.tree, off) == At(c, off);
      assert !Backs(s.tree, off / PAGE, b);
    }
  }

  /** The first byte of a page may be any byte. */
  lemma PokePage(s: State, c: seq<byte>, p: nat, b: nat, v: byte)
    requires SoundFile(s, [], c) && InDevice(s.mem, b) && Backs(s.tree, p, b)
    ensures p * PAGE < |c| && Sound(s.(mem := Poked(s.mem, b, v)), [], c[p * PAGE := v])
  {
    var m := Poked(s.mem, b, v);
    KeysBelowSize(s.log, p);
    PokedFrame(s, c, b, v);
    forall off: nat
      ensures ByteAt(m, s.tree, off) == At(c[p * PAGE := v], off)
    {
      assert ByteAt(s.mem, s.tree, off) == At(c, off);
      assert Apart(s.tree, p, off / PAGE);
    }
  }

  lemma WrongByte(s: State, t: State, d: seq<byte>, cur: nat, limit: nat, off: nat, b: nat, n: nat)
    requires Readable(s) && t == s.(mem := t.mem) && |t.mem| == |s.mem| && 0 < limit && n == RoundLen(s, cur, limit)
    requires cur / PAGE in s.tree && cur <= off < cur + n <= |d| && off % PAGE == 0
    requires Covers(s.tree[cur / PAGE], off / PAGE) && b == BlockOf(s.tree[cur / PAGE], off / PAGE)
    requires InDevice(t.mem, b) && Cell(t.mem, b, 0) != d[off]
    ensures Readable(t) && Fetched(t, cur, limit) != d[cur..cur + n]
  {
    FetchedAt(t, cur, limit, off, b);
    assert d[cur..cur + n][off - cur] == d[off];
  }

  /** A round that leaves the index is wrong for some content of the file: the page `q` that it
      takes from another block than the index does shows that. */
  lemma RoundIsWrong(s: State, c: seq<byte>, cur: nat, limit: nat) returns (m: seq<byte>, d: seq<byte>)
    requires Sound(s, [], c) && Readable(s) && 0 < limit && cur + limit <= |c| && !Followed(s, cur, limit)
    ensures Sound(s.(mem := m), [], d) && |d| == |c| && |m| == |s.mem|
    ensures Readable(s.(mem := m)) && Fetched(s.(mem := m), cur, limit) != d[cur..cur + RoundLen(s, cur, limit)]
  {
    var index: nat, n := cur / PAGE, RoundLen(s, cur, limit);
    var q :| index < q && q * PAGE < cur + n && Covers(s.tree[index], q)
      && !Backs(s.tree, q, BlockOf(s.tree[index], q));
    var b, off := BlockOf(s.tree[index], q), q * PAGE;
    FetchedAt(s, cur, limit, off, b);
    m, d := WrongContent(s, c, q, b);
    assert off % PAGE == 0;
    WrongByte(s, s.(mem := m), d, cur, limit, off, b, n);
  }

  /** Some content in which the first byte of page `q` is not the first byte of block `b`. */
  lemma WrongContent(s: State, c: seq<byte>, q: nat, b: nat) returns (m: seq<byte>, d: seq<byte>)
    requires Sound(s, [], c) && InDevice(s.mem, b) && !Backs(s.tree, q, b) && q * PAGE < |c|
    ensures Sound(s.(mem := m), [], d) && |d| == |c| && |m| == |s.mem| && Cell(m, b, 0) != d[q * PAGE]
  {
    SoundParts(s, [], c);
    var off := q * PAGE;
    assert ByteAt(s.mem, s.tree, off) == At(c, off);
    if q in s.tree {
      var v: byte := if Cell(s.mem, b, 0) == 0 then 1 else 0;
      assert Backed(s.mem, s.log, Books(s), q);
      var own := BlockOf(s.tree[q], q);
      PokePage(s, c, q, own, v);
      m, d := Poked(s.mem, own, v), c[off := v];
    } else {
      m := Poked(s.mem, b, 1);
      if p: nat :| Backs(s.tree, p, b) {
        PokePage(s, c, p, b, 1);
        d := c[p * PAGE := 1];
      } else {
        assert !Live(s.tree, b);
        PokeUnused(s, c, b, 1);
        d := c;
      }
    }
  }

  // ---------------------------------------------------------------------------------------
  // The whole loop
  // ---------------------------------------------------------------------------------------

  ghost function FetchedAll(s: State, cur: nat, end: nat): (r: seq<byte>)
    requires Readable(s) && cur <= end
    ensures |r| == end - cur
    decreases end - cur
  {
    if cur == end then []
    else Fetched(s, cur, end - cur) + FetchedAll(s, cur + RoundLen(s, cur, end - cur), end)
  }

  lemma FetchedAllStep(s: State, cur: nat, end: nat)
    requires Readable(s) && cur < end
    ensures var n := RoundLen(s, cur, end - cur);
            FetchedAll(s, cur, end) == Fetched(s, cur, end - cur) + FetchedAll(s, cur + n, end)
  {
  }

  /** Every round follows the index. */
  ghost predicate FollowedAll(s: State, cur: nat, end: nat)
    requires Readable(s) && cur <= end
    decreases end - cur
  {
    cur == end || (Followed(s, cur, end - cur) && FollowedAll(s, cur + RoundLen(s, cur, end - cur), end))
  }

  lemma {:induction false} FollowedIsRight(s: State, c: seq<byte>, cur: nat, end: nat)
    requires Sound(s, [], c) && Readable(s) && cur <= end <= |c| && FollowedAll(s, cur, end)
    ensures FetchedAll(s, cur, end) == c[cur..end]
    decreases end - cur
  {
    if cur < end {
      var n := RoundLen(s, cur, end - cur);
      RoundIsRight(s, c, cur, end - cur);
      assert FollowedAll(s, cur + n, end);
      FollowedIsRight(s, c, cur + n, end);
      JoinedRead(s, c, cur, end, n);
    } else {
      assert c[cur..end] == [];
    }
  }

  lemma JoinedRead(t: State, d: seq<byte>, cur: nat, end: nat, n: nat)
    requires Readable(t) && cur < end <= |d| && n == RoundLen(t, cur, end - cur)
    requires Fetched(t, cur, end - cur) == d[cur..cur + n] && FetchedAll(t, cur + n, end) == d[cur + n..end]
    ensures FetchedAll(t, cur, end) == d[cur..end]
  {
    PartsOfRead(t, d, cur, end, n);
  }

  /** A read is right if and only if its first round and the rest of it are. */
  lemma PartsOfRead(t: State, d: seq<byte>, cur: nat, end: nat, n: nat)
    requires Readable(t) && cur < end <= |d| && n == RoundLen(t, cur, end - cur)
    ensures FetchedAll(t, cur, end) == d[cur..end] <==>
            Fetched(t, cur, end - cur) == d[cur..cur + n] && FetchedAll(t, cur + n, end) == d[cur + n..end]
  {
    var a, b := Fetched(t, cur, end - cur), FetchedAll(t, cur + n, end);
    FetchedAllStep(t, cur, end);
    assert d[cur..end] == d[cur..cur + n] + d[cur + n..end];
    assert (a + b)[..n] == a && (a + b)[n..] == b;
    assert d[cur..end][..n] == d[cur..cur + n] && d[cur..end][n..] == d[cur + n..end];
  }

  lemma {:induction false} UnfollowedIsWrong(s: State, c: seq<byte>, cur: nat, end: nat)
    returns (m: seq<byte>, d: seq<byte>)
    requires Sound(s, [], c) && Readable(s) && cur <= end <= |c| && !FollowedAll(s, cur, end)
    ensures Sound(s.(mem := m), [], d) && |d| == |c| && |m| == |s.mem|
    ensures Readable(s.(mem := m)) && FetchedAll(s.(mem := m), cur, end) != d[cur..end]
    decreases end - cur
  {
    var n := RoundLen(s, cur, end - cur);
    if Followed(s, cur, end - cur) {
      assert !FollowedAll(s, cur + n, end);
      m, d := UnfollowedIsWrong(s, c, cur + n, end);
    } else {
      m, d := RoundIsWrong(s, c, cur, end - cur);
    }
    PartsOfRead(s.(mem := m), d, cur, end, n);
  }

  /** The read loop is right, whatever the file holds, if and only if each of its rounds follows
      the index. */
  lemma ReadIsRightIff(s: State, c: seq<byte>, cur: nat, end: nat)
    requires Sound(s, [], c) && cur <= end <= |c|
    ensures Readable(s)
    ensures FollowedAll(s, cur, end) <==>
            forall m, d :: Sound(s.(mem := m), [], d) ==>
              Readable(s.(mem := m)) && end <= |d| && FetchedAll(s.(mem := m), cur, end) == d[cur..end]
  {
    SoundParts(s, [], c);
    SoundIsReadable(s, c);
    if FollowedAll(s, cur, end) {
      forall m, d | Sound(s.(mem := m), [], d)
        ensures Readable(s.(mem := m)) && end <= |d| && FetchedAll(s.(mem := m), cur, end) == d[cur..end]
      {
        var t := s.(mem := m);
        SoundParts(t, [], d);
        SoundIsReadable(t, d);
        SameRounds(s, t, cur, end);
        FollowedIsRight(t, d, cur, end);
      }
    } else {
      var m, d := UnfollowedIsWrong(s, c, cur, end);
      assert Sound(s.(mem := m), [], d);
    }
  }

  /** Which blocks a read goes to does not depend on what they hold. */
  lemma {:induction false} SameRounds(s: State, t: State, cur: nat, end: nat)
    requires Readable(s) && Readable(t) && t == s.(mem := t.mem) && cur <= end
    ensures FollowedAll(s, cur, end) == FollowedAll(t, cur, end)
    decreases end - cur
  {
    if cur < end {
      assert RoundLen(s, cur, end - cur) == RoundLen(t, cur, end - cur);
      SameRounds(s, t, cur + RoundLen(s, cur, end - cur), end);
    }
  }

  /** With exact counters every read follows the index. */
  lemma {:induction false} ExactIsFollowed(s: State, c: seq<byte>, cur: nat, end: nat)
    requires Sound(s, [], c) && s.exact && Readable(s) && cur <= end
    ensures FollowedAll(s, cur, end)
    decreases end - cur
  {
    if cur < end {
      ExactRound(s, c, cur, end - cur);
      ExactIsFollowed(s, c, cur + RoundLen(s, cur, end - cur), end);
    }
  }

  lemma ExactRound(s: State, c: seq<byte>, cur: nat, limit: nat)
    requires Sound(s, [], c) && s.exact && Readable(s) && 0 < limit
    ensures Followed(s, cur, limit)
  {
    SoundParts(s, [], c);
    var index: nat := cur / PAGE;
    if index in s.tree {
      var r := s.tree[index];
      assert Backed(s.mem, s.log, Books(s), index);
      var i :| 0 <= i < |s.log| && s.log[i] == r;
      forall q | index < q && q * PAGE < cur + RoundLen(s, cur, limit) && Covers(r, q)
        ensures Backs(s.tree, q, BlockOf(r, q))
      {
        assert s.invalid[r.addr] == 0;
        ZeroCounterIsWhole(s.log, s.tree, s.invalid, i, q);
      }
    }
  }

  // Two pages of sevens, the second one then overwritten by eights.  The counter of the first
  // record went from zero to one, but the update was lost in a crash.

  const WIDE := Rec(1, Write(0, 2, 1, 2 * PAGE))
  const NARROW := Rec(2, Write(1, 1, 3, 2 * PAGE))

  function Repeat(v: byte, n: nat): (c: seq<byte>)
    ensures |c| == n && forall i :: 0 <= i < n ==> c[i] == v
  {
    seq(n, _ => v)
  }

  function LostUpdate(): State {
    State(Repeat(7, 3 * PAGE) + Repeat(8, PAGE), [WIDE, NARROW], map[1 := 0, 2 := 0], map[0 := WIDE, 1 := NARROW],
          2 * PAGE, {2}, false)
  }

  lemma WideThenNarrow()
    ensures WellSized([WIDE, NARROW]) && Settled([WIDE, NARROW])
    ensures Meaning([WIDE, NARROW]).tree == map[0 := WIDE, 1 := NARROW] && Meaning([WIDE, NARROW]).size == 2 * PAGE
  {
    ReplayAppend(EMPTY, [], WIDE, {});
    ReplayAppend(EMPTY, [WIDE], NARROW, {});
    assert [] + [WIDE] == [WIDE] && [WIDE] + [NARROW] == [WIDE, NARROW];
    var one: map<nat, Rec> := map[0 := WIDE, 1 := WIDE];
    assert Assign(map[], WIDE) == one;
    assert Assign(one, NARROW) == map[0 := WIDE, 1 := NARROW];
    assert LastOf([WIDE, NARROW], Resizes) == 1;
  }

  lemma LostUpdateCounts()
    ensures Counted(LostUpdate().log, LostUpdate().tree, LostUpdate().invalid, false)
  {
    var s := LostUpdate();
    assert Owned(s.tree, WIDE) == {0} && Owned(s.tree, NARROW) == {1};
  }

  lemma LostUpdateBooks()
    ensures Booked(LostUpdate().mem, LostUpdate().log, Books(LostUpdate()))
    ensures Housed(LostUpdate().mem, LostUpdate().log)
  {
  }

  lemma LostUpdateBytes()
    ensures Reads(LostUpdate().mem, LostUpdate().tree, Repeat(7, PAGE) + Repeat(8, PAGE))
  {
  }

  lemma LostUpdateIsSound()
    ensures Sound(LostUpdate(), [], Repeat(7, PAGE) + Repeat(8, PAGE))
  {
    WideThenNarrow();
    LostUpdateCounts();
    LostUpdateBooks();
    LostUpdateBytes();
    assert LostUpdate().log + [] == LostUpdate().log;
  }

  /** The file before: the second write has filled its block and is about to commit. */
  function SecondWrite(): State {
    State(Repeat(7, 3 * PAGE) + Repeat(8, PAGE), [WIDE], map[1 := 0, 2 := 0], map[0 := WIDE, 1 := WIDE], 2 * PAGE, {},
          true)
  }

  function SecondStaging(): Staging {
    Staging(1, 2, {3}, Repeat(7, 2 * PAGE), Repeat(7, PAGE) + Repeat(8, PAGE))
  }

  lemma SecondWriteIndex()
    ensures IndexIsLog(SecondWrite())
  {
    ReplayAppend(EMPTY, [], WIDE, {});
    assert [] + [WIDE] == [WIDE];
    assert Assign(map[], WIDE) == SecondWrite().tree;
    assert LastOf([WIDE], Resizes) == 0;
  }

  lemma SecondWriteCounts()
    ensures Counted([WIDE], SecondWrite().tree, SecondWrite().invalid, true)
  {
    assert Owned(SecondWrite().tree, WIDE) == {0, 1};
  }

  lemma SecondWriteBooks()
    ensures Booked(SecondWrite().mem, [WIDE], Books(SecondWrite())) && Housed(SecondWrite().mem, [WIDE])
    ensures Reads(SecondWrite().mem, SecondWrite().tree, Repeat(7, 2 * PAGE)) && Pending(SecondWrite(), [NARROW])
  {
  }

  lemma SecondWriteStaged()
    ensures Staged(SecondWrite().mem, {}, [NARROW], {3}, SecondStaging().target)
  {
    forall i: nat | i < PAGE
      ensures Cell(SecondWrite().mem, 3, i) == At(SecondStaging().target, PAGE + i)
    {
    }
  }

  lemma SecondWriteIsSound()
    ensures Sound(SecondWrite(), [NARROW], Repeat(7, 2 * PAGE))
  {
    SecondWriteIndex();
    SecondWriteCounts();
    SecondWriteBooks();
  }

  lemma OneRecordTiles(r: Rec, size: nat)
    requires r.e.Write? && Appendable(r.e, size)
    ensures Appends(size, [r]) && Tiles([r], r.e.pgoff, r.e.pgoff + r.e.num)
  {
    var es, none: seq<Rec> := [r], [];
    assert es[..|es| - 1] == none && es[|es| - 1] == r;
    assert Appends(size, none) && SizeAfter(size, none) == size;
    assert Tiles(none, r.e.pgoff, r.e.pgoff);
  }

  lemma SecondWriteUnderway()
    ensures Underway(SecondWrite(), [NARROW], SecondStaging())
  {
    SecondWriteIsSound();
    OneRecordTiles(NARROW, 2 * PAGE);
    SecondWriteStaged();
    assert !Live(SecondWrite().tree, 3) && CarriesAt([NARROW][0], 1, 3);
  }

  /** The file after the second write, with the first record's counter at one. */
  function AfterSecond(): State {
    LostUpdate().(invalid := map[1 := 1, 2 := 0], exact := true)
  }

  lemma TakeOnePage(l: Ledger, r: Rec)
    requires r.e.Write? && r.e.num == 1
    ensures TakeAll(l, [r]) == Take(l, r, r.e.pgoff, true)
  {
    assert [r][..0] == [];
    assert TakeFirst(l, r, 0, true) == l;
  }

  lemma SecondWriteCommits()
    ensures Committed(SecondWrite(), [NARROW]) == AfterSecond()
    ensures Sound(AfterSecond(), [], Repeat(7, PAGE) + Repeat(8, PAGE))
  {
    var s, w := SecondWrite(), SecondStaging();
    SecondWriteUnderway();
    var es := [NARROW];
    assert es[..|es| - 1] == [];
    assert SizeAfter(s.size, es) == 2 * PAGE;
    forall off: nat | !(1 <= off / PAGE < 2)
      ensures At(w.before, off) == At(w.target, off)
    {
    }
    CommitSound(s, [NARROW], w);
    TakeOnePage(Books(s), NARROW);
    assert s.log + es == [WIDE, NARROW];
  }

  lemma FoundIsRebuilt(f: Found)
    requires f == Found([WIDE, NARROW], map[1 := 0, 2 := 0], LostUpdate().mem, 2 * PAGE, {2})
    ensures Rebuilt(f) == LostUpdate() && LastOf(f.log, SetsSize) == 1
  {
    assert FullCounters(f.log, f.invalid) == {};
    StartIsIrrelevant(View(map[], 2 * PAGE, 0, 0), f.log, {});
    FieldsOf(View(map[], 2 * PAGE, 0, 0), f.log, {});
    WideThenNarrow();
  }

  /** It is what a mount finds after a crash right after the second write that loses the update of
      the counter. */
  lemma LostUpdateHappens(k: CrashPoint, f: Found)
    requires k == CrashPoint([WIDE, NARROW], map[1 := 1, 2 := 0], LostUpdate().mem, iset{}, {2})
    requires f == Found([WIDE, NARROW], map[1 := 0, 2 := 0], LostUpdate().mem, 2 * PAGE, {2})
    ensures Underway(SecondWrite(), [NARROW], SecondStaging())
    ensures var t := Committed(SecondWrite(), [NARROW]);
            k == CrashPoint(t.log, t.invalid, t.mem, iset{}, t.free) && t.exact
    ensures Finds(k, f) && Rebuilt(f) == LostUpdate()
  {
    SecondWriteUnderway();
    SecondWriteCommits();
    FoundIsRebuilt(f);
    assert !Live(LostUpdate().tree, 2);
    assert InDevice(f.mem, 2);
  }

  /** The read of both pages goes through the first record and returns sevens only. */
  lemma LostUpdateBreaksRead()
    ensures Sound(LostUpdate(), [], Repeat(7, PAGE) + Repeat(8, PAGE)) && Readable(LostUpdate())
    ensures FetchedAll(LostUpdate(), 0, 2 * PAGE) == Repeat(7, 2 * PAGE)
    ensures ReadOf(Repeat(7, PAGE) + Repeat(8, PAGE), 0, 2 * PAGE)[PAGE] == 8
  {
    var s := LostUpdate();
    LostUpdateIsSound();
    assert RunPages(s, 0) == 2 && RoundLen(s, 0, 2 * PAGE) == 2 * PAGE;
    assert Fetched(s, 0, 2 * PAGE) == s.mem[PAGE..3 * PAGE];
    assert FetchedAll(s, 2 * PAGE, 2 * PAGE) == [];
  }

  // The second page was overwritten again, and the write got the block back that the first record
  // has for it.

  const BACK := Rec(3, Write(1, 1, 2, 2 * PAGE))

  function CameBack(): State {
    State(Repeat(7, 4 * PAGE), [WIDE, NARROW, BACK], map[1 := 0, 2 := 0, 3 := 0], map[0 := WIDE, 1 := BACK], 2 * PAGE,
          {3}, false)
  }

  lemma CameBackIndex()
    ensures IndexIsLog(CameBack())
  {
    WideThenNarrow();
    ReplayAppend(EMPTY, [WIDE, NARROW], BACK, {});
    assert [WIDE, NARROW] + [BACK] == [WIDE, NARROW, BACK];
    assert Assign(map[0 := WIDE, 1 := NARROW], BACK) == map[0 := WIDE, 1 := BACK];
    assert LastOf([WIDE, NARROW, BACK], Resizes) == 2;
  }

  lemma CameBackBooks()
    ensures Booked(CameBack().mem, CameBack().log, Books(CameBack()))
    ensures Housed(CameBack().mem, CameBack().log)
  {
  }

  lemma CameBackCounts()
    ensures Counted(CameBack().log, CameBack().tree, CameBack().invalid, false)
  {
    var t := CameBack().tree;
    assert Owned(t, WIDE) == {0} && Owned(t, BACK) == {1} && Owned(t, NARROW) == {};
  }

  lemma CameBackBytes()
    ensures Reads(CameBack().mem, CameBack().tree, Repeat(7, 2 * PAGE))
  {
  }

  lemma CameBackIsSound()
    ensures Sound(CameBack(), [], Repeat(7, 2 * PAGE)) && Readable(CameBack())
  {
    CameBackIndex();
    CameBackBooks();
    CameBackCounts();
    CameBackBytes();
    assert CameBack().log + [] == CameBack().log;
    SoundParts(CameBack(), [], Repeat(7, 2 * PAGE));
    SoundIsReadable(CameBack(), Repeat(7, 2 * PAGE));
  }

  /** A read of two pages in one round follows the index if the second page is in its place. */
  lemma TwoPagesFollowed(s: State)
    requires Readable(s) && 0 in s.tree && RunPages(s, 0) == 2 && Covers(s.tree[0], 1)
    requires Backs(s.tree, 1, BlockOf(s.tree[0], 1))
    ensures FollowedAll(s, 0, 2 * PAGE)
  {
    assert RoundLen(s, 0, 2 * PAGE) == 2 * PAGE;
    assert forall q: nat :: 0 < q && q * PAGE < 2 * PAGE ==> q == 1;
    assert Followed(s, 0, 2 * PAGE);
  }

  /** The first record no longer owns the second page, and yet a read through it follows the index. */
  lemma BlockCameBack()
    ensures Sound(CameBack(), [], Repeat(7, 2 * PAGE)) && Readable(CameBack())
    ensures CameBack().tree[1] != WIDE && RunPages(CameBack(), 0) == 2 && FollowedAll(CameBack(), 0, 2 * PAGE)
  {
    CameBackIsSound();
    assert RunPages(CameBack(), 0) == 2;
    TwoPagesFollowed(CameBack());
  }
}
