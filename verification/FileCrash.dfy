/**
 Power failures: what NVMM may hold at a moment of an operation, what a mount makes of it, and
 from which moments the file comes back whole.
 */
module FileCrash {
  import opened FileLog
  import opened FileData
  import opened FileBooks
  import opened FileState

  /** A moment of an operation: the committed log, the counters as stored so far, and a memory
      that may hold anything in the cells `torn` whose stores are still in flight.  `free` are
      the blocks that the running system would hand out next. */
  datatype CrashPoint = CrashPoint(log: seq<Rec>, invalid: map<nat, nat>, mem: seq<byte>, torn: iset<(nat, nat)>,
                                   free: set<nat>)

  ghost function BlockCells(blocks: set<nat>): iset<(nat, nat)> {
    iset x: (nat, nat) | x.0 in blocks
  }

  ghost predicate Survives(m: seq<byte>, k: CrashPoint) {
    && |m| == |k.mem|
    && forall b: nat, i: nat :: InDevice(m, b) && i < PAGE && (b, i) !in k.torn ==> Cell(m, b, i) == Cell(k.mem, b, i)
  }

  /** Counters are stored but not flushed, so a crash may lose any part of their updates. */
  ghost predicate Lags(log: seq<Rec>, lagging: map<nat, nat>, invalid: map<nat, nat>) {
    forall i :: 0 <= i < |log| ==>
      log[i].addr in invalid && log[i].addr in lagging && lagging[log[i].addr] <= invalid[log[i].addr]
  }

  /** What a mount finds in NVMM: log, counters, memory and the size field of the inode; and the
      blocks that its scan takes for unused. */
  datatype Found = Found(log: seq<Rec>, invalid: map<nat, nat>, mem: seq<byte>, inodeSize: nat, unused: set<nat>)

  /** The addresses of the write records whose counter has reached num_pages. */
  ghost function FullCounters(log: seq<Rec>, invalid: map<nat, nat>): set<nat> {
    set i | 0 <= i < |log| && log[i].e.Write? && log[i].addr in invalid
      && invalid[log[i].addr] == log[i].e.num :: log[i].addr
  }

  /** The file as nova_rebuild_file_inode_tree leaves it: records whose counter is full are skipped. */
  ghost function Rebuilt(f: Found): State {
    var v := Replay(View(map[], f.inodeSize, 0, 0), f.log, FullCounters(f.log, f.invalid));
    State(f.mem, f.log, f.invalid, v.tree, v.size, f.unused, false)
  }

  /** All that the rebuild makes of what it found, with the inode as it happened to be. */
  ghost function Mounted(f: Found, inodeAttrs: nat, inodeLinks: nat): View {
    Replay(View(map[], f.inodeSize, inodeAttrs, inodeLinks), f.log, FullCounters(f.log, f.invalid))
  }

  /** Attributes and links are replayed beside index and size. */
  lemma {:induction false} FieldsAside(v: View, w: View, log: seq<Rec>, marks: set<nat>)
    requires w == v.(attrs := w.attrs, links := w.links)
    ensures Replay(w, log, marks) ==
            Replay(v, log, marks).(attrs := Replay(w, log, marks).attrs, links := Replay(w, log, marks).links)
  {
    if log != [] {
      FieldsAside(v, w, log[..|log| - 1], marks);
    }
  }

  /** A mount after a crash at `k` may find `f`.  The size field of the inode matters only as long
      as no record has set the size. */
  ghost predicate Finds(k: CrashPoint, f: Found) {
    && f.log == k.log && Lags(k.log, f.invalid, k.invalid) && Survives(f.mem, k)
    && (LastOf(k.log, SetsSize) < 0 ==> f.inodeSize == Meaning(k.log).size)
    && forall b :: b in f.unused ==> InDevice(f.mem, b) && !Live(Rebuilt(f).tree, b)
  }

  /** No block of the committed file is on a free list. */
  ghost predicate KeptBack(k: CrashPoint) {
    var t := Meaning(k.log).tree;
    forall p :: p in t ==> Covers(t[p], p) && BlockOf(t[p], p) !in k.free
  }

  /** Whatever a mount finds after a crash at `k`, it rebuilds a sound file that reads `c`. */
  ghost predicate RecoversTo(k: CrashPoint, c: seq<byte>) {
    KeptBack(k) && forall f {:trigger Finds(k, f)} :: Finds(k, f) ==> Sound(Rebuilt(f), [], c)
  }

  /** From one moment to the next nothing happens but that the tail moves over new records. */
  ghost predicate TailStore(k: CrashPoint, l: CrashPoint) {
    l == k.(log := l.log, torn := l.torn) && k.log <= l.log
  }

  /** An operation commits by one store of the tail and ends at `now`. */
  ghost predicate OneTailStore(before: seq<CrashPoint>, after: seq<CrashPoint>, now: CrashPoint) {
    && before != [] && after != []
    && TailStore(before[|before| - 1], after[0]) && after[|after| - 1] == now
  }

  // ---------------------------------------------------------------------------------------
  // What the log holds at a moment
  // ---------------------------------------------------------------------------------------

  ghost predicate OnlyFrom(log: seq<Rec>, a: seq<Rec>, b: seq<Rec>) {
    forall r :: r in log ==> r in a || r in b
  }

  /** From moment `n` on the log holds only records of `a` and `b`. */
  ghost predicate LogsWithin(ks: seq<CrashPoint>, n: nat, a: seq<Rec>, b: seq<Rec>) {
    forall k {:trigger Inside(TheLogs, k)} :: Inside(TheLogs, k) ==>
      forall i {:trigger ks[i]} :: n <= i < |ks| ==> OnlyFrom(ks[i].log, a, b)
  }

  /** At none of these moments the log holds `r`. */
  ghost predicate NotYet(ks: seq<CrashPoint>, r: Rec) {
    forall i :: 0 <= i < |ks| ==> r !in ks[i].log
  }

  lemma NewIsNotYet(ks: seq<CrashPoint>, a: seq<Rec>, b: seq<Rec>, r: Rec)
    requires LogsWithin(ks, 0, a, b) && r !in a && r !in b
    ensures NotYet(ks, r)
  {
    assert Inside(TheLogs, 0);
  }

  /** The moments of one collection follow those of another: the log goes from `a` to `b` to `c`. */
  lemma LogsJoin(ks: seq<CrashPoint>, n: nat, m: nat, a: seq<Rec>, b: seq<Rec>, c: seq<Rec>)
    requires n <= m <= |ks| && LogsWithin(ks[..m], n, a, []) && OnlyFrom(b, a, []) && LogsWithin(ks, m, b, c)
    ensures LogsWithin(ks, n, a, c)
  {
    assert Inside(TheLogs, 0);
    forall i | n <= i < |ks|
      ensures OnlyFrom(ks[i].log, a, c)
    {
      assert i < m ==> ks[..m][i] == ks[i];
    }
  }

  /** Every mount after a crash at `k` finds these attributes and this size, whatever the inode held. */
  ghost predicate Tells(k: CrashPoint, attrs: nat, size: nat) {
    forall f: Found, v0: View :: Finds(k, f) ==>
      var v := Replay(v0, f.log, FullCounters(f.log, f.invalid));
      v.attrs == attrs && v.size == size
  }

  lemma LastTells(k: CrashPoint, r: Rec)
    requires k.log != [] && k.log[|k.log| - 1] == r && r.e.SetAttr?
    ensures Tells(k, r.e.attrs, r.e.size)
  {
  }

  // ---------------------------------------------------------------------------------------
  // Traces
  // ---------------------------------------------------------------------------------------

  /** Each of these crash points recovers to `c`. */
  ghost predicate AllRecover(ks: seq<CrashPoint>, c: seq<byte>) {
    forall x {:trigger Inside(TheTrace, x)} :: Inside(TheTrace, x) ==> Recovering(ks, c)
  }

  ghost predicate Recovering(ks: seq<CrashPoint>, c: seq<byte>) {
    ks == [] || (Recovering(ks[..|ks| - 1], c) && RecoversTo(ks[|ks| - 1], c))
  }

  lemma NoneToRecover(c: seq<byte>)
    ensures AllRecover([], c)
  {
  }

  lemma RecoverMore(ks: seq<CrashPoint>, k: CrashPoint, c: seq<byte>)
    requires AllRecover(ks, c) && RecoversTo(k, c)
    ensures AllRecover(ks + [k], c)
  {
    assert Inside(TheTrace, 0);
    assert (ks + [k])[..|ks|] == ks;
  }

  lemma {:induction false} RecoverEach(ks: seq<CrashPoint>, c: seq<byte>)
    requires forall i :: 0 <= i < |ks| ==> RecoversTo(ks[i], c)
    ensures AllRecover(ks, c)
  {
    if ks == [] {
      NoneToRecover(c);
    } else {
      var k := |ks| - 1;
      RecoverEach(ks[..k], c);
      RecoverMore(ks[..k], ks[k], c);
      assert ks == ks[..k] + [ks[k]];
    }
  }

  lemma RecoverBoth(ks: seq<CrashPoint>, ls: seq<CrashPoint>, c: seq<byte>)
    requires AllRecover(ks, c) && AllRecover(ls, c)
    ensures AllRecover(ks + ls, c)
  {
    forall i | 0 <= i < |ks + ls|
      ensures RecoversTo((ks + ls)[i], c)
    {
      if i < |ks| {
        AllRecoverAt(ks, c, i);
      } else {
        AllRecoverAt(ls, c, i - |ks|);
      }
    }
    RecoverEach(ks + ls, c);
  }

  lemma AllRecoverAt(ks: seq<CrashPoint>, c: seq<byte>, i: nat)
    requires AllRecover(ks, c) && i < |ks|
    ensures RecoversTo(ks[i], c)
  {
    assert Inside(TheTrace, 0);
    RecoveringAt(ks, c, i);
  }

  lemma {:induction false} RecoveringAt(ks: seq<CrashPoint>, c: seq<byte>, i: nat)
    requires Recovering(ks, c) && i < |ks|
    ensures RecoversTo(ks[i], c)
  {
    if i < |ks| - 1 {
      RecoveringAt(ks[..|ks| - 1], c, i);
    }
  }

  // ---------------------------------------------------------------------------------------
  // Rebuilding from lagging counters
  // ---------------------------------------------------------------------------------------

  lemma MarkedWhenFull(log: seq<Rec>, invalid: map<nat, nat>, i: nat)
    requires DistinctAddrs(log) && i < |log| && log[i].e.Write? && log[i].addr in invalid
    ensures log[i].addr in FullCounters(log, invalid) <==> invalid[log[i].addr] == log[i].e.num
  {
  }

  /** Counters that lag behind still prove every record dead that they call dead. */
  lemma LaggingIndex(s: State, lagging: map<nat, nat>, inodeSize: nat)
    requires IndexIsLog(s) && DistinctAddrs(s.log) && Counted(s.log, s.tree, lagging, false)
    requires LastOf(s.log, SetsSize) < 0 ==> inodeSize == s.size
    ensures var v := Replay(View(map[], inodeSize, 0, 0), s.log, FullCounters(s.log, lagging));
            v.tree == s.tree && v.size == s.size
  {
    var v0, marks := View(map[], inodeSize, 0, 0), FullCounters(s.log, lagging);
    forall i | 0 <= i < |s.log| && s.log[i].e.Write? && s.log[i].addr in {} + marks
      ensures !Owns(s.tree, s.log[i])
    {
      MarkedWhenFull(s.log, lagging, i);
      FullCounterIsDead(s.log, s.tree, lagging, false, i);
    }
    FilterNothing(s.log);
    SameIndex(v0, s.log, {}, marks);
    FieldsOf(v0, s.log, marks);
    FieldsOf(EMPTY, s.log, {});
  }

  lemma LaggingCounts(log: seq<Rec>, tree: map<nat, Rec>, invalid: map<nat, nat>, exact: bool, lagging: map<nat, nat>)
    requires Counted(log, tree, invalid, exact) && Lags(log, lagging, invalid)
    ensures Counted(log, tree, lagging, false)
  {
    forall i | 0 <= i < |log|
      ensures log[i].addr in lagging && Accounted(tree, lagging, log[i]) <= Accounted(tree, invalid, log[i])
    {
    }
  }

  lemma ScannedBooks(mem: seq<byte>, mem': seq<byte>, log: seq<Rec>, l: Ledger, lagging: map<nat, nat>,
                     unused: set<nat>)
    requires Booked(mem, log, l) && HasCounter(log, lagging) && |mem'| == |mem|
    requires forall b :: b in unused ==> InDevice(mem', b) && !Live(l.tree, b)
    ensures Booked(mem', log, Ledger(l.tree, lagging, unused))
  {
    forall p: nat
      ensures Backed(mem', log, Ledger(l.tree, lagging, unused), p)
    {
      assert Backed(mem, log, l, p);
      if p in l.tree {
        assert Backs(l.tree, p, BlockOf(l.tree[p], p));
      }
    }
    forall p, q
      ensures Apart(l.tree, p, q)
    {
    }
  }

  /** The whole invariant of a file but for what it reads. */
  ghost predicate Framed(s: State) {
    && IndexIsLog(s) && Booked(s.mem, s.log, Books(s)) && Counted(s.log, s.tree, s.invalid, s.exact)
    && Housed(s.mem, s.log) && Pending(s, [])
  }

  lemma LagsOn(log: seq<Rec>, a: map<nat, nat>, b: map<nat, nat>, c: map<nat, nat>)
    requires Lags(log, a, b) && Lags(log, b, c)
    ensures Lags(log, a, c)
  {
  }

  /** A mount gives back index and size of `s` if no counter it finds is ahead of those of `s`. */
  lemma RebuiltFrame(s: State, f: Found, k: CrashPoint)
    requires IndexIsLog(s) && Booked(s.mem, s.log, Books(s)) && Counted(s.log, s.tree, s.invalid, s.exact)
    requires Housed(s.mem, s.log)
    requires k.log == s.log && Lags(s.log, k.invalid, s.invalid) && |k.mem| == |s.mem| && Finds(k, f)
    ensures Rebuilt(f).tree == s.tree && Rebuilt(f).size == s.size && Framed(Rebuilt(f))
  {
    LagsOn(s.log, f.invalid, k.invalid, s.invalid);
    LaggingCounts(s.log, s.tree, s.invalid, s.exact, f.invalid);
    LaggingIndex(s, f.invalid, f.inodeSize);
    ScannedBooks(s.mem, f.mem, s.log, Books(s), f.invalid, f.unused);
    assert s.log + [] == s.log;
  }

  // ---------------------------------------------------------------------------------------
  // Crashes in a write
  // ---------------------------------------------------------------------------------------

  lemma SameCells(s: State, m: seq<byte>, c: seq<byte>)
    requires Reads(s.mem, s.tree, c) && |m| == |s.mem|
    requires forall p, i: nat :: p in s.tree && i < PAGE ==>
               Cell(m, BlockOf(s.tree[p], p), i) == Cell(s.mem, BlockOf(s.tree[p], p), i)
    ensures Reads(m, s.tree, c)
  {
    forall off: nat
      ensures Mapped(m, s.tree) && ByteAt(m, s.tree, off) == At(c, off)
    {
      assert ByteAt(s.mem, s.tree, off) == At(c, off);
    }
  }

  /** A crash recovers to the sound file `s` if log and live blocks are those of `s`, only cells
      outside the file are in flight, and no counter is ahead. */
  lemma SoundRecovers(s: State, pend: seq<Rec>, c: seq<byte>, k: CrashPoint)
    requires Sound(s, pend, c)
    requires k.log == s.log && k.mem == s.mem && k.free <= s.free && Lags(s.log, k.invalid, s.invalid)
    requires forall p, i: nat :: Backs(s.tree, p, i) ==> forall j: nat :: (i, j) !in k.torn
    ensures RecoversTo(k, c)
  {
    SoundParts(s, pend, c);
    BookedIndex(s.mem, s.log, Books(s));
    forall f | Finds(k, f)
      ensures Sound(Rebuilt(f), [], c)
    {
      RebuiltFrame(s, f, k);
      forall p, i: nat | p in s.tree && i < PAGE
        ensures Cell(f.mem, BlockOf(s.tree[p], p), i) == Cell(s.mem, BlockOf(s.tree[p], p), i)
      {
        assert Backs(s.tree, p, BlockOf(s.tree[p], p));
      }
      SameCells(s, f.mem, c);
    }
  }

  /** As long as only blocks outside the committed file are in flight, a crash changes nothing. */
  lemma StagingIsInvisible(s: State, es: seq<Rec>, w: Staging)
    requires Underway(s, es, w)
    ensures RecoversTo(CrashPoint(s.log, s.invalid, s.mem, BlockCells(w.taken), s.free), w.before)
  {
    UnderwayParts(s, es, w);
    var k := CrashPoint(s.log, s.invalid, s.mem, BlockCells(w.taken), s.free);
    assert Lags(s.log, k.invalid, s.invalid) by {
      SoundParts(s, es, w.before);
    }
    forall p, i: nat, j: nat | Backs(s.tree, p, i)
      ensures (i, j) !in k.torn
    {
      assert Live(s.tree, i);
    }
    SoundRecovers(s, es, w.before, k);
  }

  /** A crash after the tail store, while replaced blocks are being freed and counted: `l` are the
      books at that moment. */
  lemma CommittedSurvives(s: State, l: Ledger, c: seq<byte>)
    requires Sound(s, [], c) && HasCounter(s.log, l.invalid) && Grown(l, Books(s))
    ensures RecoversTo(CrashPoint(s.log, l.invalid, s.mem, iset{}, l.free), c)
  {
    SoundRecovers(s, [], c, CrashPoint(s.log, l.invalid, s.mem, iset{}, l.free));
  }

  // ---------------------------------------------------------------------------------------
  // Crashes in a truncate
  // ---------------------------------------------------------------------------------------

  /** Everything but the zeros beyond the end. */
  ghost predicate Short(s: State, c: seq<byte>) {
    Framed(s) && s.size == |c| && Mapped(s.mem, s.tree) && forall off: nat :: off < |c| ==>
      ByteAt(s.mem, s.tree, off) == c[off]
  }

  /** A mount rebuilds a file of the right size with the right bytes, which may have others beyond
      its end. */
  ghost predicate RecoversShort(k: CrashPoint, c: seq<byte>) {
    KeptBack(k) && forall f {:trigger Finds(k, f)} :: Finds(k, f) ==> Short(Rebuilt(f), c)
  }

  lemma SoundIsShort(s: State, c: seq<byte>)
    requires Sound(s, [], c)
    ensures Short(s, c)
  {
    SoundParts(s, [], c);
    forall off: nat | off < |c|
      ensures ByteAt(s.mem, s.tree, off) == c[off]
    {
      assert ByteAt(s.mem, s.tree, off) == At(c, off);
    }
  }

  lemma FoundIsShort(k: CrashPoint, c: seq<byte>, f: Found)
    requires (RecoversTo(k, c) || RecoversShort(k, c)) && Finds(k, f)
    ensures Short(Rebuilt(f), c) && DistinctAddrs(f.log) && HasCounter(f.log, f.invalid)
    ensures RecoversTo(k, c) ==> Sound(Rebuilt(f), [], c)
  {
    if RecoversTo(k, c) {
      SoundIsShort(Rebuilt(f), c);
    }
  }

  lemma ShortIsSoundIff(s: State, c: seq<byte>)
    requires Short(s, c)
    ensures Sound(s, [], c) <==> forall off: nat :: |c| <= off ==> ByteAt(s.mem, s.tree, off) == 0
  {
    if Sound(s, [], c) {
      SoundParts(s, [], c);
      forall off: nat | |c| <= off
        ensures ByteAt(s.mem, s.tree, off) == 0
      {
        assert ByteAt(s.mem, s.tree, off) == At(c, off);
      }
    }
    if forall off: nat :: |c| <= off ==> ByteAt(s.mem, s.tree, off) == 0 {
      assert Reads(s.mem, s.tree, c);
    }
  }

  /** The file is zero from `newsize` to the end of that page: there is nothing to clear. */
  ghost predicate TailIsZero(c: seq<byte>, newsize: nat) {
    forall off: nat :: newsize <= off < PagesOf(newsize) * PAGE ==> At(c, off) == 0
  }

  /** The cells that clearing the last page changes. */
  ghost function TailCells(s: State, newsize: nat): iset<(nat, nat)>
    requires Mapped(s.mem, s.tree)
  {
    iset x: (nat, nat) | Backs(s.tree, newsize / PAGE, x.0) && 0 < newsize % PAGE <= x.1 < PAGE
      && Cell(s.mem, x.0, x.1) != 0
  }

  /** The moments of a truncate from its commit on: nothing cleared, or the clearing in flight or
      done, and some of the books already brought up to date. */
  ghost predicate Truncating(s: State, r: Rec, newsize: nat, k: CrashPoint)
    requires Mapped(s.mem, s.tree)
  {
    && k.log == s.log + [r] && k.free <= Truncated(s, r, newsize).free
    && Lags(k.log, k.invalid, Truncated(s, r, newsize).invalid)
    && (k.mem == s.mem || k.mem == Cleared(s.mem, s.tree, newsize, s.size))
    && k.torn <= TailCells(s, newsize)
  }

  lemma TruncatingByte(s: State, r: Rec, newsize: nat, c: seq<byte>, k: CrashPoint, m: seq<byte>, tree: map<nat, Rec>,
                       off: nat)
    requires Reads(s.mem, s.tree, c) && Truncating(s, r, newsize, k) && Survives(m, k) && off < newsize
    requires forall p, q :: p in s.tree && q in s.tree && p != q ==> BlockOf(s.tree[p], p) != BlockOf(s.tree[q], q)
    requires tree == Cut(s.tree, PagesOf(newsize), PagesOf(s.size))
    ensures Mapped(m, tree) && ByteAt(m, tree, off) == At(c, off)
  {
    var p: nat := off / PAGE;
    assert ByteAt(s.mem, s.tree, off) == At(c, off);
    assert p < PagesOf(newsize);
    if p in tree {
      var b := BlockOf(tree[p], p);
      assert Backs(s.tree, newsize / PAGE, b) ==> p == newsize / PAGE && off % PAGE < newsize % PAGE;
      assert (b, off % PAGE) !in k.torn;
      assert Cell(k.mem, b, off % PAGE) == Cell(s.mem, b, off % PAGE);
    }
  }

  /** The file that a truncate leads to. */
  lemma TruncatedParts(s: State, r: Rec, newsize: nat, c: seq<byte>)
    requires Sound(s, [], c) && r.e.SetAttr? && r.e.setsSize && r.e.size == newsize
    requires forall i :: 0 <= i < |s.log| ==> s.log[i].addr < r.addr
    ensures Mapped(s.mem, s.tree)
    ensures var t := Truncated(s, r, newsize);
            && IndexIsLog(t) && Booked(t.mem, t.log, Books(t)) && Counted(t.log, t.tree, t.invalid, t.exact)
            && Housed(t.mem, t.log)
            && Placed(t.mem, t.tree, t.free) && t.size == newsize && |t.mem| == |s.mem|
    ensures Truncated(s, r, newsize).tree == Cut(s.tree, PagesOf(newsize), PagesOf(s.size))
  {
    TruncateSound(s, r, newsize, c);
    var t, d := Truncated(s, r, newsize), Resized(c, newsize);
    SoundParts(t, [], d);
    BookedIndex(t.mem, t.log, Books(t));
    DropRangeIndex(Ledger(s.tree, s.invalid[r.addr := 0], s.free), PagesOf(newsize), PagesOf(s.size), true);
  }

  lemma TruncatingReads(s: State, r: Rec, newsize: nat, c: seq<byte>, k: CrashPoint, m: seq<byte>, tree: map<nat, Rec>)
    requires SoundFile(s, [], c) && Mapped(s.mem, s.tree) && Truncating(s, r, newsize, k) && Survives(m, k)
    requires tree == Cut(s.tree, PagesOf(newsize), PagesOf(s.size))
    ensures Mapped(m, tree) && forall off: nat :: off < newsize ==> ByteAt(m, tree, off) == Resized(c, newsize)[off]
  {
    BooksAreApart(s.mem, s.log, Books(s));
    forall off: nat | off < newsize
      ensures ByteAt(m, tree, off) == Resized(c, newsize)[off]
    {
      TruncatingByte(s, r, newsize, c, k, m, tree, off);
      assert At(Resized(c, newsize), off) == At(c, off);
    }
  }

  /** A crash at any moment after the commit of a truncate: size and bytes are the new ones. */
  lemma TruncateSurvives(s: State, r: Rec, newsize: nat, c: seq<byte>, k: CrashPoint)
    requires Sound(s, [], c) && r.e.SetAttr? && r.e.setsSize && r.e.size == newsize
    requires forall i :: 0 <= i < |s.log| ==> s.log[i].addr < r.addr
    requires Mapped(s.mem, s.tree) && Truncating(s, r, newsize, k)
    ensures RecoversShort(k, Resized(c, newsize))
  {
    TruncatedParts(s, r, newsize, c);
    SoundParts(s, [], c);
    var t := Truncated(s, r, newsize);
    forall f | Finds(k, f)
      ensures Short(Rebuilt(f), Resized(c, newsize))
    {
      RebuiltFrame(t, f, k);
      TruncatingReads(s, r, newsize, c, k, f.mem, t.tree);
    }
  }

  /** Nothing to clear: the last page is as clearing it would leave it. */
  lemma NothingToClear(s: State, newsize: nat, c: seq<byte>)
    requires Reads(s.mem, s.tree, c) && TailIsZero(c, newsize)
    ensures Cleared(s.mem, s.tree, newsize, s.size) == s.mem && TailCells(s, newsize) == iset{}
  {
    var offset: nat, p: nat := newsize % PAGE, newsize / PAGE;
    if p in s.tree && offset != 0 {
      var b := BlockOf(s.tree[p], p);
      forall i: nat | offset <= i < PAGE
        ensures Cell(s.mem, b, i) == 0
      {
        var off: nat := p * PAGE + i;
        assert off / PAGE == p && off % PAGE == i;
        assert ByteAt(s.mem, s.tree, off) == At(c, off);
      }
      var m := Blit(s.mem, b * PAGE + offset, Zeros(PAGE - offset));
      forall i | 0 <= i < |m|
        ensures m[i] == s.mem[i]
      {
        if b * PAGE + offset <= i < b * PAGE + PAGE {
          assert Cell(s.mem, b, i - b * PAGE) == 0;
        }
      }
    }
  }

  /** The first moment after the commit, when the last page is not cleared yet. */
  ghost function UnclearedPoint(s: State, r: Rec): CrashPoint {
    CrashPoint(s.log + [r], s.invalid[r.addr := 0], s.mem, iset{}, s.free)
  }

  lemma UnclearedTruncating(s: State, r: Rec, newsize: nat)
    requires Mapped(s.mem, s.tree) && HasCounter(s.log, s.invalid)
    ensures Truncating(s, r, newsize, UnclearedPoint(s, r))
  {
    DropRangeGrows(Ledger(s.tree, s.invalid[r.addr := 0], s.free), PagesOf(newsize), PagesOf(s.size));
  }

  lemma SoundByte(s: State, c: seq<byte>, off: nat)
    requires Sound(s, [], c)
    ensures Mapped(s.mem, s.tree) && ByteAt(s.mem, s.tree, off) == At(c, off)
  {
    SoundParts(s, [], c);
  }

  /** Where the last page holds something beyond the new size, the rebuilt file still has it. */
  lemma StaleByte(s: State, r: Rec, newsize: nat, c: seq<byte>, off: nat)
    requires Reads(s.mem, s.tree, c) && newsize <= off < PagesOf(newsize) * PAGE
    requires forall p :: p in s.tree ==> p < PagesOf(s.size)
    ensures var tree := Cut(s.tree, PagesOf(newsize), PagesOf(s.size));
            Mapped(s.mem, tree) && ByteAt(s.mem, tree, off) == At(c, off)
  {
    assert ByteAt(s.mem, s.tree, off) == At(c, off);
    assert off / PAGE < PagesOf(newsize);
  }

  /** A crash before the last page is cleared brings back a sound file if and only if there was
      nothing to clear. */
  lemma UnclearedRecoversIff(s: State, r: Rec, newsize: nat, c: seq<byte>)
    requires Sound(s, [], c) && r.e.SetAttr? && r.e.setsSize && r.e.size == newsize
    requires forall i :: 0 <= i < |s.log| ==> s.log[i].addr < r.addr
    ensures RecoversTo(UnclearedPoint(s, r), Resized(c, newsize)) <==> TailIsZero(c, newsize)
  {
    var k, d := UnclearedPoint(s, r), Resized(c, newsize);
    TruncatedParts(s, r, newsize, c);
    SoundParts(s, [], c);
    UnclearedTruncating(s, r, newsize);
    if TailIsZero(c, newsize) {
      var t := Truncated(s, r, newsize);
      NothingToClear(s, newsize, c);
      TruncateSound(s, r, newsize, c);
      SoundRecovers(t, [], d, k);
    } else {
      var off: nat :| newsize <= off < PagesOf(newsize) * PAGE && At(c, off) != 0;
      var f := Found(k.log, k.invalid, k.mem, newsize, {});
      assert LastOf(k.log, SetsSize) >= 0;
      assert Finds(k, f);
      RebuiltFrame(Truncated(s, r, newsize), f, k);
      forall p | p in s.tree
        ensures p < PagesOf(s.size)
      {
        KeysBelowSize(s.log, p);
      }
      StaleByte(s, r, newsize, c, off);
      if Sound(Rebuilt(f), [], d) {
        SoundByte(Rebuilt(f), d, off);
      }
    }
  }

  lemma SurvivingByte(m: seq<byte>, k: CrashPoint, tree: map<nat, Rec>, off: nat)
    requires Survives(m, k) && k.torn == iset{} && Mapped(k.mem, tree)
    ensures Mapped(m, tree) && ByteAt(m, tree, off) == ByteAt(k.mem, tree, off)
  {
    var p: nat := off / PAGE;
    if p in tree {
      assert (BlockOf(tree[p], p), off % PAGE) !in k.torn;
    }
  }

  /** What a mount rebuilds when nothing was cleared. */
  lemma RebuiltUncleared(s: State, r: Rec, newsize: nat, c: seq<byte>, f: Found)
    requires Sound(s, [], c) && r.e.SetAttr? && r.e.setsSize && r.e.size == newsize
    requires forall i :: 0 <= i < |s.log| ==> s.log[i].addr < r.addr
    requires Finds(UnclearedPoint(s, r), f)
    ensures Framed(Rebuilt(f)) && Rebuilt(f).size == newsize
    ensures Rebuilt(f).tree == Cut(s.tree, PagesOf(newsize), PagesOf(s.size))
  {
    TruncatedParts(s, r, newsize, c);
    SoundParts(s, [], c);
    UnclearedTruncating(s, r, newsize);
    RebuiltFrame(Truncated(s, r, newsize), f, UnclearedPoint(s, r));
  }

  lemma UnclearedByte(s: State, r: Rec, newsize: nat, c: seq<byte>, m: seq<byte>, off: nat)
    requires SoundFile(s, [], c) && Survives(m, UnclearedPoint(s, r))
    requires newsize <= off < PagesOf(newsize) * PAGE
    ensures var tree := Cut(s.tree, PagesOf(newsize), PagesOf(s.size));
            Mapped(m, tree) && ByteAt(m, tree, off) == At(c, off)
  {
    forall p | p in s.tree
      ensures p < PagesOf(s.size)
    {
      KeysBelowSize(s.log, p);
    }
    StaleByte(s, r, newsize, c, off);
    SurvivingByte(m, UnclearedPoint(s, r), Cut(s.tree, PagesOf(newsize), PagesOf(s.size)), off);
  }

  /** Growth neither clears nor drops anything. */
  lemma GrownState(t: State, r: Rec, g: nat)
    requires Mapped(t.mem, t.tree) && t.size <= g
    ensures Truncated(t, r, g).tree == t.tree && Truncated(t, r, g).mem == t.mem
  {
    PagesMonotone(t.size, g);
  }

  ghost predicate AllShort(ks: seq<CrashPoint>, c: seq<byte>) {
    forall i :: 0 <= i < |ks| ==> RecoversShort(ks[i], c)
  }

  /** A moment of an operation that turns `was` into `c`. */
  lemma MomentRecovers(before: seq<CrashPoint>, after: seq<CrashPoint>, was: seq<byte>, c: seq<byte>, i: nat)
    requires AllRecover(before, was) && (AllRecover(after, c) || AllShort(after, c)) && i < |before| + |after|
    ensures i < |before| ==> RecoversTo((before + after)[i], was)
    ensures i >= |before| ==> RecoversTo((before + after)[i], c) || RecoversShort((before + after)[i], c)
  {
    if i < |before| {
      AllRecoverAt(before, was, i);
    } else if AllRecover(after, c) {
      AllRecoverAt(after, c, i - |before|);
    }
  }

  lemma TruncateTraceShort(s: State, r: Rec, newsize: nat, c: seq<byte>, t: State, ks: seq<CrashPoint>)
    requires Sound(s, [], c) && r.e.SetAttr? && r.e.setsSize && r.e.size == newsize
    requires forall i :: 0 <= i < |s.log| ==> s.log[i].addr < r.addr
    requires Mapped(s.mem, s.tree) && t == Truncated(s, r, newsize) && HasCounter(s.log, s.invalid)
    requires HasCounter(t.log, t.invalid)
    requires |ks| == 3 && ks[0] == UnclearedPoint(s, r) && ks[2] == CrashPoint(t.log, t.invalid, t.mem, iset{}, t.free)
    requires ks[1] == ks[0].(mem := t.mem, torn := TailCells(s, newsize))
    ensures AllShort(ks, Resized(c, newsize))
  {
    UnclearedTruncating(s, r, newsize);
    TruncateSurvives(s, r, newsize, c, ks[0]);
    TruncateSurvives(s, r, newsize, c, ks[1]);
    TruncateSurvives(s, r, newsize, c, ks[2]);
  }

  lemma AllThreeRecover(ks: seq<CrashPoint>, c: seq<byte>)
    requires |ks| == 3 && RecoversTo(ks[0], c) && RecoversTo(ks[1], c) && RecoversTo(ks[2], c)
    ensures AllRecover(ks, c)
  {
    NoneToRecover(c);
    RecoverMore([], ks[0], c);
    RecoverMore([] + [ks[0]], ks[1], c);
    RecoverMore([] + [ks[0]] + [ks[1]], ks[2], c);
    assert [] + [ks[0]] + [ks[1]] + [ks[2]] == ks;
  }

  /** What a crash at one of the moments `ks` of a truncate leaves: always the new size and bytes;
      at the last of them, and if and only if the file was zero to the end of the last page at
      all of them, also the zeros beyond. */
  ghost predicate CutTrace(ks: seq<CrashPoint>, c: seq<byte>, newsize: nat) {
    forall x {:trigger Inside(TheTrace, x)} :: Inside(TheTrace, x) ==> CutMoments(ks, c, newsize)
  }

  ghost predicate CutMoments(ks: seq<CrashPoint>, c: seq<byte>, newsize: nat) {
    var d := Resized(c, newsize);
    && ks != [] && AllShort(ks, d) && RecoversTo(ks[|ks| - 1], d)
    && (AllRecover(ks, d) <==> TailIsZero(c, newsize))
  }

  /** Every moment of a truncate recovers to the new size and bytes. */
  lemma CutTraceShort(ks: seq<CrashPoint>, c: seq<byte>, newsize: nat)
    requires CutTrace(ks, c, newsize)
    ensures AllShort(ks, Resized(c, newsize)) && (AllRecover(ks, Resized(c, newsize)) <==> TailIsZero(c, newsize))
  {
    assert Inside(TheTrace, 0);
  }

  /** The moments of a truncate from its commit on: `ks` are the one before the last page is
      cleared, the one while it is being cleared, and the end. */
  lemma TruncateTrace(s: State, r: Rec, newsize: nat, c: seq<byte>, t: State, ks: seq<CrashPoint>)
    requires Sound(s, [], c) && r.e.SetAttr? && r.e.setsSize && r.e.size == newsize
    requires forall i :: 0 <= i < |s.log| ==> s.log[i].addr < r.addr
    requires Mapped(s.mem, s.tree) && t == Truncated(s, r, newsize) && Sound(t, [], Resized(c, newsize))
    requires |ks| == 3 && ks[0] == UnclearedPoint(s, r) && ks[2] == CrashPoint(t.log, t.invalid, t.mem, iset{}, t.free)
    requires ks[1] == ks[0].(mem := t.mem, torn := TailCells(s, newsize))
    ensures CutTrace(ks, c, newsize)
  {
    var d := Resized(c, newsize);
    assert HasCounter(s.log, s.invalid) && HasCounter(t.log, t.invalid) && Reads(s.mem, s.tree, c) by {
      SoundParts(s, [], c);
      SoundParts(t, [], d);
    }
    TruncateTraceShort(s, r, newsize, c, t, ks);
    CommittedSurvives(t, Books(t), d);
    UnclearedRecoversIff(s, r, newsize, c);
    if TailIsZero(c, newsize) {
      NothingToClear(s, newsize, c);
      assert ks[1] == ks[0];
      AllThreeRecover(ks, d);
    }
    if AllRecover(ks, d) {
      AllRecoverAt(ks, d, 0);
    }
  }

  /** A cut to `newsize`, a crash before the last page is cleared, a mount, and a growth to `g`:
      between the two sizes the file reads what it held before the cut, not zeros. */
  lemma OldBytesReturn(s: State, r: Rec, newsize: nat, c: seq<byte>, f: Found, r2: Rec, g: nat, off: nat)
    requires Sound(s, [], c) && r.e.SetAttr? && r.e.setsSize && r.e.size == newsize
    requires forall i :: 0 <= i < |s.log| ==> s.log[i].addr < r.addr
    requires Finds(UnclearedPoint(s, r), f) && newsize <= off < PagesOf(newsize) * PAGE && off < g
    ensures Mapped(f.mem, Rebuilt(f).tree)
    ensures var u := Truncated(Rebuilt(f), r2, g);
            u.size == g && Mapped(u.mem, u.tree) && ByteAt(u.mem, u.tree, off) == At(c, off)
    ensures At(Resized(Resized(c, newsize), g), off) == 0
  {
    RebuiltUncleared(s, r, newsize, c, f);
    assert Mapped(f.mem, Rebuilt(f).tree) && ByteAt(f.mem, Rebuilt(f).tree, off) == At(c, off) by {
      SoundParts(s, [], c);
      UnclearedByte(s, r, newsize, c, f.mem, off);
    }
    GrownState(Rebuilt(f), r2, g);
  }

  // A file of one page that is full of sevens.

  const FULL_PAGE := Rec(1, Write(0, 1, 1, PAGE))
  const CUT := Rec(2, SetAttr(true, 1, 0))
  const GROW := Rec(3, SetAttr(true, 2, 0))

  function Sevens(n: nat): (c: seq<byte>)
    ensures |c| == n && forall i :: 0 <= i < n ==> c[i] == 7
  {
    seq(n, _ => 7)
  }

  function PageOfSevens(): State {
    State(Sevens(2 * PAGE), [FULL_PAGE], map[1 := 0], map[0 := FULL_PAGE], PAGE, {}, true)
  }

  lemma PageOfSevensIndex()
    ensures IndexIsLog(PageOfSevens())
  {
    var s := PageOfSevens();
    ReplayAppend(EMPTY, [], FULL_PAGE, {});
    assert [] + [FULL_PAGE] == s.log;
    assert Assign(map[], FULL_PAGE) == s.tree;
    assert LastOf(s.log, Resizes) == 0;
  }

  lemma PageOfSevensBooks()
    ensures Booked(PageOfSevens().mem, PageOfSevens().log, Books(PageOfSevens()))
    ensures Counted(PageOfSevens().log, PageOfSevens().tree, PageOfSevens().invalid, true)
  {
    assert Owned(PageOfSevens().tree, FULL_PAGE) == {0};
  }

  lemma PageOfSevensBytes()
    ensures Reads(PageOfSevens().mem, PageOfSevens().tree, Sevens(PAGE))
    ensures Housed(PageOfSevens().mem, PageOfSevens().log)
  {
  }

  lemma PageOfSevensIsSound()
    ensures Sound(PageOfSevens(), [], Sevens(PAGE))
  {
    PageOfSevensIndex();
    PageOfSevensBooks();
    PageOfSevensBytes();
    assert PageOfSevens().log + [] == PageOfSevens().log;
  }

  /** Cut to one byte, crash, mount, grow to two bytes: the second byte is a seven again. */
  lemma CutCrashGrow()
    ensures Sound(PageOfSevens(), [], Sevens(PAGE))
    ensures !RecoversTo(UnclearedPoint(PageOfSevens(), CUT), Resized(Sevens(PAGE), 1))
    ensures var f := Found([FULL_PAGE, CUT], map[1 := 0, 2 := 0], Sevens(2 * PAGE), 1, {});
            && Finds(UnclearedPoint(PageOfSevens(), CUT), f) && Mapped(f.mem, Rebuilt(f).tree)
            && var u := Truncated(Rebuilt(f), GROW, 2);
               Mapped(u.mem, u.tree) && ByteAt(u.mem, u.tree, 1) == 7 && Resized(Resized(Sevens(PAGE), 1), 2)[1] == 0
  {
    var s, c := PageOfSevens(), Sevens(PAGE);
    PageOfSevensIsSound();
    assert At(c, 1) == 7;
    UnclearedRecoversIff(s, CUT, 1, c);
    var f := Found([FULL_PAGE, CUT], map[1 := 0, 2 := 0], Sevens(2 * PAGE), 1, {});
    assert LastOf(f.log, SetsSize) == 1;
    assert UnclearedPoint(s, CUT).log == f.log;
    OldBytesReturn(s, CUT, 1, c, f, GROW, 2, 1);
    assert At(Resized(Resized(c, 1), 2), 1) == 0;
  }
}
