/**
 The invariant of a mounted file and how each step of a write, a collection and a truncate
 keeps it.
 */
module FileState {
  import opened FileLog
  import opened FileData
  import opened FileBooks
  import opened FileStage

  /** All of a file's state: NVMM (memory, committed log, counters) and DRAM (index, size and the
      free blocks it allocates from).  `exact` says that no crash has lost a counter update. */
  datatype State = State(mem: seq<byte>, log: seq<Rec>, invalid: map<nat, nat>, tree: map<nat, Rec>, size: nat,
                         free: set<nat>, exact: bool)

  function Books(s: State): Ledger {
    Ledger(s.tree, s.invalid, s.free)
  }

  /** The log is one the operations write, and the index and size are what a rebuild would make
      of it. */
  ghost predicate IndexIsLog(s: State) {
    && WellSized(s.log) && Settled(s.log)
    && s.tree == Meaning(s.log).tree && s.size == Meaning(s.log).size
  }

  ghost predicate Pending(s: State, pend: seq<Rec>) {
    && DistinctAddrs(s.log + pend)
    && forall i :: 0 <= i < |pend| ==> pend[i].addr in s.invalid && s.invalid[pend[i].addr] == 0
  }

  /** The invariant of a mounted file that reads `c`.  `pend` are the records appended beyond the
      tail by a write that has not committed. */
  ghost predicate Sound(s: State, pend: seq<Rec>, c: seq<byte>) {
    forall k {:trigger Inside(TheFile, k)} :: Inside(TheFile, k) ==> SoundFile(s, pend, c)
  }

  ghost predicate SoundFile(s: State, pend: seq<Rec>, c: seq<byte>) {
    && IndexIsLog(s)
    && Booked(s.mem, s.log, Books(s)) && Counted(s.log, s.tree, s.invalid, s.exact)
    && s.size == |c| && Reads(s.mem, s.tree, c)
    && Housed(s.mem, s.log) && Pending(s, pend)
  }

  /** The blocks of every write record of the log lie on the device, replaced ones included. */
  ghost predicate Housed(mem: seq<byte>, log: seq<Rec>) {
    forall i, p :: 0 <= i < |log| && Covers(log[i], p) ==> InDevice(mem, BlockOf(log[i], p))
  }

  lemma SoundParts(s: State, pend: seq<Rec>, c: seq<byte>)
    requires Sound(s, pend, c)
    ensures SoundFile(s, pend, c)
  {
    assert Inside(TheFile, 0);
  }

  lemma SoundSize(s: State, pend: seq<Rec>, c: seq<byte>)
    requires Sound(s, pend, c)
    ensures s.size == |c|
  {
    SoundParts(s, pend, c);
  }

  // ---------------------------------------------------------------------------------------
  // Garbage collection
  // ---------------------------------------------------------------------------------------

  lemma KeptBooks(mem: seq<byte>, log: seq<Rec>, l: Ledger, drop: set<nat>)
    requires Booked(mem, log, l)
    requires forall i :: 0 <= i < |log| && log[i].e.Write? && log[i].addr in drop ==> !Owns(l.tree, log[i])
    ensures Booked(mem, Filter(log, drop), l)
  {
    var kept := Filter(log, drop);
    FilterMembers(log, drop);
    forall i | 0 <= i < |kept|
      ensures kept[i].addr in l.invalid
    {
      assert kept[i] in kept;
    }
    forall p: nat
      ensures Backed(mem, kept, l, p)
    {
      assert Backed(mem, log, l, p);
      if p in l.tree {
        var j :| 0 <= j < |log| && log[j] == l.tree[p];
        assert Owns(l.tree, log[j]);
      }
    }
  }

  lemma KeptCounts(log: seq<Rec>, l: Ledger, drop: set<nat>, exact: bool)
    requires Counted(log, l.tree, l.invalid, exact)
    ensures Counted(Filter(log, drop), l.tree, l.invalid, exact)
  {
    var kept := Filter(log, drop);
    FilterMembers(log, drop);
    forall i | 0 <= i < |kept|
      ensures kept[i] in log
    {
      assert kept[i] in kept;
    }
  }

  /** What a collection may drop: dead writes by their counters, and attribute and link records
      that do not set the size. */
  ghost predicate Droppable(s: State, drop: set<nat>) {
    forall i :: 0 <= i < |s.log| && s.log[i].addr in drop ==>
      match s.log[i].e
      case Write(_, num, _, _) => s.log[i].addr in s.invalid && s.invalid[s.log[i].addr] == num
      case SetAttr(setsSize, _, _) => !setsSize
      case LinkChange(_) => true
  }

  ghost function Collected(s: State, drop: set<nat>, to: map<nat, nat>, now: map<nat, nat>): State {
    s.(log := MoveLog(Filter(s.log, drop), to), tree := MoveTree(s.tree, to), invalid := now)
  }

  lemma DeadWritesOwnNothing(s: State, drop: set<nat>)
    requires Booked(s.mem, s.log, Books(s)) && Counted(s.log, s.tree, s.invalid, s.exact) && Droppable(s, drop)
    requires s.tree == Meaning(s.log).tree
    ensures Collectable(s.log, drop, {})
    ensures forall i :: 0 <= i < |s.log| && s.log[i].e.Write? && s.log[i].addr in drop ==> !Owns(s.tree, s.log[i])
  {
    forall i | 0 <= i < |s.log| && s.log[i].e.Write? && s.log[i].addr in drop
      ensures !Owns(s.tree, s.log[i])
    {
      FullCounterIsDead(s.log, s.tree, s.invalid, s.exact, i);
    }
  }

  /** Dropping and moving records keeps the index in step with the log. */
  lemma CollectedIndex(s: State, drop: set<nat>, to: map<nat, nat>, now: map<nat, nat>)
    requires IndexIsLog(s) && Collectable(s.log, drop, {})
    ensures IndexIsLog(Collected(s, drop, to, now))
  {
    CollectionKeepsIndexAndSize(s.log, drop, {});
    ReplayMoved(Filter(s.log, drop), to);
    MovedSettled(Filter(s.log, drop), to);
  }

  lemma CollectedHoused(mem: seq<byte>, log: seq<Rec>, drop: set<nat>, to: map<nat, nat>)
    requires Housed(mem, log)
    ensures Housed(mem, MoveLog(Filter(log, drop), to))
  {
    var kept := Filter(log, drop);
    FilterMembers(log, drop);
    forall i, p | 0 <= i < |kept| && Covers(MoveLog(kept, to)[i], p)
      ensures InDevice(mem, BlockOf(MoveLog(kept, to)[i], p))
    {
      assert kept[i] in kept;
      var j :| 0 <= j < |log| && log[j] == kept[i];
      assert Covers(log[j], p);
    }
  }

  /** Garbage collection keeps the whole invariant, and exact counts stay exact. */
  lemma CollectedIsSound(s: State, drop: set<nat>, to: map<nat, nat>, now: map<nat, nat>, pend: seq<Rec>, c: seq<byte>)
    requires Sound(s, pend, c) && Droppable(s, drop)
    requires DistinctAddrs(MoveLog(Filter(s.log, drop), to) + pend)
    requires CountersMoved(Filter(s.log, drop), to, s.invalid, now)
    requires forall i :: 0 <= i < |pend| ==> pend[i].addr in now && now[pend[i].addr] == 0
    ensures Sound(Collected(s, drop, to, now), pend, c)
  {
    SoundParts(s, pend, c);
    var kept, moved := Filter(s.log, drop), MoveLog(Filter(s.log, drop), to);
    assert DistinctAddrs(moved) by {
      assert forall i :: 0 <= i < |moved| ==> moved[i] == (moved + pend)[i];
    }
    DeadWritesOwnNothing(s, drop);
    CollectedIndex(s, drop, to, now);
    CollectedHoused(s.mem, s.log, drop, to);
    KeptBooks(s.mem, s.log, Books(s), drop);
    KeptCounts(s.log, Books(s), drop, s.exact);
    MovedBooks(s.mem, kept, Books(s), to, now);
    BookedIndex(s.mem, kept, Books(s));
    MovedCounts(kept, Books(s), to, now, s.exact);
    MovedReads(s.mem, s.tree, to, c);
  }

  // ---------------------------------------------------------------------------------------
  // Staging a write
  // ---------------------------------------------------------------------------------------

  /** How far a write has come: pages from..to-1 sit in the blocks `taken`; the file reads as
      `before` and will read as `target`. */
  datatype Staging = Staging(from: nat, to: nat, taken: set<nat>, before: seq<byte>, target: seq<byte>)

  ghost predicate Underway(s: State, es: seq<Rec>, w: Staging) {
    forall k {:trigger Inside(TheStaging, k)} :: Inside(TheStaging, k) ==> UnderwayFile(s, es, w)
  }

  /** Page `p` of the record `r` is in block `b`. */
  ghost predicate CarriesAt(r: Rec, p: nat, b: nat) {
    Covers(r, p) && BlockOf(r, p) == b
  }

  /** Block `b` belongs to one of these records. */
  ghost predicate Carries(es: seq<Rec>, b: nat) {
    exists i, p :: 0 <= i < |es| && CarriesAt(es[i], p, b)
  }

  ghost predicate UnderwayFile(s: State, es: seq<Rec>, w: Staging) {
    && Sound(s, es, w.before) && Appends(s.size, es)
    && Tiles(es, w.from, w.to) && Staged(s.mem, s.free, es, w.taken, w.target)
    && (forall b :: b in w.taken ==> !Live(s.tree, b) && Carries(es, b))
  }

  lemma UnderwayParts(s: State, es: seq<Rec>, w: Staging)
    requires Underway(s, es, w)
    ensures UnderwayFile(s, es, w)
  {
    assert Inside(TheStaging, 0);
  }

  lemma MovedLive(tree: map<nat, Rec>, to: map<nat, nat>)
    ensures forall b :: Live(MoveTree(tree, to), b) <==> Live(tree, b)
  {
    forall p: nat, b: nat
      ensures Backs(MoveTree(tree, to), p, b) <==> Backs(tree, p, b)
    {
    }
  }

  lemma FreeIsNotLive(s: State, b: nat)
    requires Booked(s.mem, s.log, Books(s)) && b in s.free
    ensures InDevice(s.mem, b) && !Live(s.tree, b)
  {
    forall p: nat
      ensures !Backs(s.tree, p, b)
    {
      assert Backed(s.mem, s.log, Books(s), p);
    }
  }

  /** One more record staged: its blocks come from the free blocks and already hold the target. */
  lemma StageStep(s: State, t: State, es: seq<Rec>, r: Rec, w: Staging, run: set<nat>)
    requires Underway(s, es, w)
    requires t == s.(mem := t.mem, free := s.free - run, invalid := s.invalid[r.addr := 0])
    requires run <= s.free && SameOutside(s.mem, t.mem, run)
    requires r.e.Write? && r.e.pgoff == w.to && Appendable(r.e, SizeAfter(s.size, es))
    requires forall i :: 0 <= i < |s.log + es| ==> (s.log + es)[i].addr < r.addr
    requires forall p :: Covers(r, p) ==> BlockOf(r, p) in run && PageHolds(t.mem, BlockOf(r, p), p, w.target)
    requires forall b :: b in run ==> exists p :: CarriesAt(r, p, b)
    ensures Underway(t, es + [r], w.(to := w.to + r.e.num, taken := w.taken + run))
  {
    UnderwayParts(s, es, w);
    SoundParts(s, es, w.before);
    BookedIndex(s.mem, s.log, Books(s));
    Unaffected(s.mem, t.mem, s.tree, run);
    StageMore(s.mem, t.mem, s.free, t.free, es, r, w.taken, run, w.target);
    assert (es + [r])[..|es|] == es;
    StageSound(s, t, es, r, run, w.before);
    forall b | b in run
      ensures !Live(s.tree, b)
    {
      FreeIsNotLive(s, b);
    }
    CarriesMore(es, r, w.taken, run);
  }

  lemma CarriesMore(es: seq<Rec>, r: Rec, taken: set<nat>, run: set<nat>)
    requires forall b :: b in taken ==> Carries(es, b)
    requires forall b :: b in run ==> exists p :: CarriesAt(r, p, b)
    ensures forall b :: b in taken + run ==> Carries(es + [r], b)
  {
    forall b | b in taken + run
      ensures Carries(es + [r], b)
    {
      if b in run {
        var p :| CarriesAt(r, p, b);
        assert CarriesAt((es + [r])[|es|], p, b);
      } else {
        var i, p :| 0 <= i < |es| && CarriesAt(es[i], p, b);
        assert CarriesAt((es + [r])[i], p, b);
      }
    }
  }

  lemma StageSound(s: State, t: State, es: seq<Rec>, r: Rec, run: set<nat>, c: seq<byte>)
    requires Sound(s, es, c)
    requires t == s.(mem := t.mem, free := s.free - run, invalid := s.invalid[r.addr := 0])
    requires |t.mem| == |s.mem| && Reads(t.mem, s.tree, c)
    requires forall i :: 0 <= i < |s.log + es| ==> (s.log + es)[i].addr < r.addr
    ensures Sound(t, es + [r], c)
  {
    SoundParts(s, es, c);
    StageBooks(s, t, es, r, run);
    StagePending(s, t, es, r);
  }

  lemma StageBooks(s: State, t: State, es: seq<Rec>, r: Rec, run: set<nat>)
    requires Booked(s.mem, s.log, Books(s)) && Counted(s.log, s.tree, s.invalid, s.exact)
    requires t == s.(mem := t.mem, free := s.free - run, invalid := s.invalid[r.addr := 0])
    requires |t.mem| == |s.mem|
    requires forall i :: 0 <= i < |s.log + es| ==> (s.log + es)[i].addr < r.addr
    ensures Booked(t.mem, t.log, Books(t)) && Counted(t.log, t.tree, t.invalid, t.exact)
  {
    forall i | 0 <= i < |s.log|
      ensures s.log[i].addr in t.invalid
      ensures Accounted(t.tree, t.invalid, s.log[i]) == Accounted(s.tree, s.invalid, s.log[i])
    {
      assert s.log[i] == (s.log + es)[i];
    }
    forall p: nat
      ensures Backed(t.mem, t.log, Books(t), p)
    {
      assert Backed(s.mem, s.log, Books(s), p);
    }
  }

  lemma StagePending(s: State, t: State, es: seq<Rec>, r: Rec)
    requires Pending(s, es) && t.log == s.log && t.invalid == s.invalid[r.addr := 0]
    requires forall i :: 0 <= i < |s.log + es| ==> (s.log + es)[i].addr < r.addr
    ensures Pending(t, es + [r])
  {
    assert s.log + (es + [r]) == (s.log + es) + [r];
    assert forall i :: 0 <= i < |es| ==> es[i] == (s.log + es)[|s.log| + i];
  }

  /** A write that is given up leaves the file as it was. */
  lemma AbandonedIsSound(s: State, es: seq<Rec>, w: Staging)
    requires Underway(s, es, w)
    ensures Sound(s, [], w.before)
  {
    UnderwayParts(s, es, w);
    SoundParts(s, es, w.before);
    assert s.log + [] == s.log;
  }

  // ---------------------------------------------------------------------------------------
  // Committing a write
  // ---------------------------------------------------------------------------------------

  /** Once the tail store has made `es` part of the log, they can take over their pages. */
  lemma StagedIsTakeable(s: State, es: seq<Rec>, w: Staging)
    requires Underway(s, es, w)
    ensures TakeableRecords(s.mem, s.log + es, Books(s), es)
  {
    var log := s.log + es;
    assert Booked(s.mem, log, Books(s)) by {
      UnderwayParts(s, es, w);
      SoundParts(s, es, w.before);
      ExtendedBooks(s, es);
    }
    forall i | 0 <= i < |es|
      ensures Room(s.mem, log, Books(s), es[i], 0)
    {
      StagedRoom(s, es, w, i);
    }
    forall i, j | 0 <= i < j < |es|
      ensures es[i] != es[j] && Disjoint(es[i], es[j])
    {
      StagedApart(s, es, w, i, j);
    }
  }

  lemma StagedRoom(s: State, es: seq<Rec>, w: Staging, i: nat)
    requires Underway(s, es, w) && i < |es|
    ensures Room(s.mem, s.log + es, Books(s), es[i], 0)
  {
    var log := s.log + es;
    assert log[|s.log| + i] == es[i];
    assert es[i].e.Write? by {
      UnderwayParts(s, es, w);
      TilesBounds(es, w.from, w.to);
    }
    forall p | Covers(es[i], p)
      ensures CanTake(s.mem, log, Books(s), es[i], p)
    {
      StagedCanTake(s, es, w, i, p);
    }
  }

  lemma StagedApart(s: State, es: seq<Rec>, w: Staging, i: nat, j: nat)
    requires Underway(s, es, w) && i < j < |es|
    ensures es[i] != es[j] && Disjoint(es[i], es[j])
  {
    UnderwayParts(s, es, w);
    assert Pending(s, es) by {
      SoundParts(s, es, w.before);
    }
    var log := s.log + es;
    assert log[|s.log| + i] == es[i] && log[|s.log| + j] == es[j];
  }

  lemma StagedCanTake(s: State, es: seq<Rec>, w: Staging, i: nat, p: nat)
    requires Underway(s, es, w) && i < |es| && Covers(es[i], p)
    ensures CanTake(s.mem, s.log + es, Books(s), es[i], p)
  {
    UnderwayParts(s, es, w);
    SoundParts(s, es, w.before);
    var log := s.log + es;
    assert log[|s.log| + i] == es[i];
    assert BlockOf(es[i], p) in w.taken;
    assert Backed(s.mem, s.log, Books(s), p);
    if p in s.tree {
      var j :| 0 <= j < |s.log| && s.log[j] == s.tree[p];
      assert log[j] == s.log[j];
    }
  }

  lemma ExtendedBooks(s: State, es: seq<Rec>)
    requires Booked(s.mem, s.log, Books(s)) && Pending(s, es)
    ensures Booked(s.mem, s.log + es, Books(s))
  {
    var log := s.log + es;
    forall p: nat
      ensures Backed(s.mem, log, Books(s), p)
    {
      assert Backed(s.mem, s.log, Books(s), p);
    }
  }

  /** The state after the tail store and the index update. */
  ghost function Committed(s: State, es: seq<Rec>): State
    requires forall i :: 0 <= i < |es| ==> es[i].e.Write?
  {
    var l := TakeAll(Books(s), es);
    State(s.mem, s.log + es, l.invalid, l.tree, SizeAfter(s.size, es), l.free, s.exact)
  }

  lemma OldRecordIsNotNew(log: seq<Rec>, es: seq<Rec>, i: nat)
    requires DistinctAddrs(log + es) && i < |log|
    ensures log[i] !in es
  {
    forall j | 0 <= j < |es|
      ensures es[j] != log[i]
    {
      assert (log + es)[|log| + j] == es[j] && (log + es)[i] == log[i];
    }
  }

  lemma NewRecordOwnsNothing(s: State, es: seq<Rec>, i: nat)
    requires Booked(s.mem, s.log, Books(s)) && Pending(s, es) && i < |es|
    ensures Owned(s.tree, es[i]) == {}
  {
    var log := s.log + es;
    assert log[|s.log| + i] == es[i];
    forall p | p in s.tree
      ensures s.tree[p] != es[i]
    {
      assert Backed(s.mem, s.log, Books(s), p);
      var j :| 0 <= j < |s.log| && s.log[j] == s.tree[p];
      assert log[j] == s.log[j];
    }
  }

  /** Old records keep their account, new ones own all their pages. */
  lemma CommitCount(s: State, es: seq<Rec>, w: Staging, i: nat)
    requires Underway(s, es, w) && (forall k :: 0 <= k < |es| ==> es[k].e.Write?) && i < |s.log + es|
    requires HasCounter(s.log, s.invalid) && HasCounter(s.log + es, Committed(s, es).invalid)
    ensures var t := Committed(s, es);
            Accounted(t.tree, t.invalid, t.log[i])
            == if i < |s.log| then Accounted(s.tree, s.invalid, s.log[i]) else t.log[i].e.num
  {
    UnderwayParts(s, es, w);
    SoundParts(s, es, w.before);
    StagedIsTakeable(s, es, w);
    var log := s.log + es;
    TakeAllCounts(s.mem, log, Books(s), es, i);
    HandedOnce(es, log[i]);
    if i < |s.log| {
      OldRecordIsNotNew(s.log, es, i);
    } else {
      NewRecordOwnsNothing(s, es, i - |s.log|);
      assert log[i] == es[i - |s.log|];
    }
  }

  lemma CommitCounts(s: State, es: seq<Rec>, w: Staging)
    requires Underway(s, es, w) && forall i :: 0 <= i < |es| ==> es[i].e.Write?
    requires HasCounter(s.log, s.invalid) && HasCounter(s.log + es, Committed(s, es).invalid)
    ensures var t := Committed(s, es);
            Counted(t.log, t.tree, t.invalid, t.exact)
  {
    UnderwayParts(s, es, w);
    SoundParts(s, es, w.before);
    var t := Committed(s, es);
    forall i | 0 <= i < |t.log| && t.log[i].e.Write?
      ensures Accounted(t.tree, t.invalid, t.log[i])
              == if i < |s.log| then Accounted(s.tree, s.invalid, s.log[i]) else t.log[i].e.num
    {
      CommitCount(s, es, w, i);
    }
  }

  /** The index after the commit reads as the target. */
  lemma CommitReads(s: State, es: seq<Rec>, w: Staging)
    requires Underway(s, es, w) && forall i :: 0 <= i < |es| ==> es[i].e.Write?
    requires forall off: nat :: !(w.from <= off / PAGE < w.to) ==> At(w.before, off) == At(w.target, off)
    ensures Reads(s.mem, s.tree + Overlay(es), w.target)
  {
    UnderwayParts(s, es, w);
    SoundParts(s, es, w.before);
    var ov := Overlay(es);
    forall p | p in ov
      ensures w.from <= p < w.to && Covers(ov[p], p) && PageHolds(s.mem, BlockOf(ov[p], p), p, w.target)
    {
      TileAt(es, w.from, w.to, p);
      var i :| 0 <= i < |es| && es[i] == ov[p];
      assert Covers(es[i], p);
    }
    forall off: nat | off / PAGE !in ov
      ensures At(w.before, off) == At(w.target, off)
    {
      TileAt(es, w.from, w.to, off / PAGE);
    }
    OverlayHolds(s.mem, s.tree, ov, w.before, w.target);
  }

  lemma CommitHoused(s: State, es: seq<Rec>, w: Staging)
    requires Housed(s.mem, s.log) && Staged(s.mem, s.free, es, w.taken, w.target)
    ensures Housed(s.mem, s.log + es)
  {
    var log := s.log + es;
    forall i, p | 0 <= i < |log| && Covers(log[i], p)
      ensures InDevice(s.mem, BlockOf(log[i], p))
    {
      if i < |s.log| {
        assert Covers(s.log[i], p);
      } else {
        assert log[i] == es[i - |s.log|] && Covers(es[i - |s.log|], p);
      }
    }
  }

  lemma CommitIndex(s: State, es: seq<Rec>, t: State)
    requires IndexIsLog(s) && Appends(s.size, es)
    requires forall i :: 0 <= i < |es| ==> es[i].e.Write?
    requires t == Committed(s, es)
    ensures IndexIsLog(t) && t.tree == s.tree + Overlay(es)
  {
    TakeAllIndex(Books(s), es);
    ReplayOverlay(s.log, es);
    AppendedLog(s.log, es);
  }

  /** Committing a fully staged write gives a sound file that reads as the target. */
  lemma CommitSound(s: State, es: seq<Rec>, w: Staging)
    requires Underway(s, es, w)
    requires forall off: nat :: !(w.from <= off / PAGE < w.to) ==> At(w.before, off) == At(w.target, off)
    requires SizeAfter(s.size, es) == |w.target|
    ensures forall i :: 0 <= i < |es| ==> es[i].e.Write?
    ensures Sound(Committed(s, es), [], w.target)
  {
    UnderwayParts(s, es, w);
    SoundParts(s, es, w.before);
    TilesBounds(es, w.from, w.to);
    var t := Committed(s, es);
    StagedIsTakeable(s, es, w);
    TakeAllKeepsBooks(s.mem, t.log, Books(s), es, |es|);
    assert es[..|es|] == es;
    CommitCounts(s, es, w);
    CommitIndex(s, es, t);
    CommitReads(s, es, w);
    CommitHoused(s, es, w);
    assert t.log + [] == t.log;
  }

  /** All that the commit of a fully staged write relies on. */
  lemma CommitPlan(s: State, es: seq<Rec>, w: Staging)
    requires Underway(s, es, w)
    requires forall off: nat :: !(w.from <= off / PAGE < w.to) ==> At(w.before, off) == At(w.target, off)
    requires SizeAfter(s.size, es) == |w.target|
    ensures forall i :: 0 <= i < |es| ==> es[i].e.Write?
    ensures Takeable(s.mem, s.log + es, Books(s), es)
    ensures Sound(Committed(s, es), [], w.target)
  {
    CommitSound(s, es, w);
    StagedIsTakeable(s, es, w);
  }

  // ---------------------------------------------------------------------------------------
  // Blocks are neither lost nor doubled
  // ---------------------------------------------------------------------------------------

  /** Block `b` is free, or backs a page, or is among `more`. */
  ghost predicate Holds(s: State, more: set<nat>, b: nat) {
    b in s.free || Live(s.tree, b) || b in more
  }

  ghost predicate SameBlocks(s: State, more: set<nat>, t: State, more': set<nat>) {
    forall k {:trigger Inside(TheBlocks, k)} :: Inside(TheBlocks, k) ==>
      forall b: nat :: Holds(s, more, b) <==> Holds(t, more', b)
  }

  lemma SameBlocksTwice(s: State, a: set<nat>, t: State, b: set<nat>, u: State, c: set<nat>)
    requires SameBlocks(s, a, t, b) && SameBlocks(t, b, u, c)
    ensures SameBlocks(s, a, u, c)
  {
    assert Inside(TheBlocks, 0);
  }

  /** Blocks that move between the free ones and the others, and an index whose records move. */
  lemma BlocksMove(s: State, a: set<nat>, t: State, b: set<nat>)
    requires s.free + a == t.free + b && forall x: nat :: Live(s.tree, x) <==> Live(t.tree, x)
    ensures SameBlocks(s, a, t, b)
  {
    forall x: nat
      ensures Holds(s, a, x) <==> Holds(t, b, x)
    {
      assert x in s.free + a <==> x in t.free + b;
    }
  }

  /** The whole commit, with other blocks `a` beside it. */
  lemma CommitSameBlocks(s: State, es: seq<Rec>, w: Staging, a: set<nat>)
    requires Underway(s, es, w) && forall i :: 0 <= i < |es| ==> es[i].e.Write?
    ensures SameBlocks(s, a + w.taken, Committed(s, es), a)
  {
    forall b: nat
      ensures Holds(s, a + w.taken, b) <==> Holds(Committed(s, es), a, b)
    {
      CommitConserves(s, es, w, b);
    }
  }

  /** The commit of a write hands the new blocks to the file and frees the ones they replace. */
  lemma CommitConserves(s: State, es: seq<Rec>, w: Staging, b: nat)
    requires Underway(s, es, w) && forall i :: 0 <= i < |es| ==> es[i].e.Write?
    ensures Holds(s, w.taken, b) <==> Holds(Committed(s, es), {}, b)
  {
    StagedIsTakeable(s, es, w);
    UnderwayParts(s, es, w);
    TakeAllFrees(s.mem, s.log + es, Books(s), es, w.from, w.to, b);
    TakeAllIndex(Books(s), es);
    OverlayLive(s.tree, es, w.from, w.to, b);
    assert b in w.taken <==> Carries(es, b);
  }

  lemma OverlayLive(tree: map<nat, Rec>, es: seq<Rec>, from: nat, to: nat, b: nat)
    requires Tiles(es, from, to) && forall i :: 0 <= i < |es| ==> es[i].e.Write?
    ensures Live(tree + Overlay(es), b) || BacksIn(tree, from, to, b) <==> Live(tree, b) || Carries(es, b)
  {
    var t := tree + Overlay(es);
    if Live(t, b) {
      var p :| Backs(t, p, b);
      TileAt(es, from, to, p);
      if p in Overlay(es) {
        var i :| 0 <= i < |es| && es[i] == Overlay(es)[p];
        assert CarriesAt(es[i], p, b);
      } else {
        assert Backs(tree, p, b);
      }
    }
    if Live(tree, b) {
      var p :| Backs(tree, p, b);
      TileAt(es, from, to, p);
      assert p !in Overlay(es) ==> Backs(t, p, b);
    }
    if Carries(es, b) {
      var i, p :| 0 <= i < |es| && CarriesAt(es[i], p, b);
      TileOwner(es, from, to, i, p);
      assert Backs(t, p, b);
    }
  }

  /** A truncate frees the blocks it takes from the file. */
  lemma TruncateConserves(s: State, c: seq<byte>, r: Rec, newsize: nat, b: nat)
    requires Sound(s, [], c) && Mapped(s.mem, s.tree)
    ensures Holds(s, {}, b) <==> Holds(Truncated(s, r, newsize), {}, b)
  {
    SoundParts(s, [], c);
    var l, from, to := Ledger(s.tree, s.invalid[r.addr := 0], s.free), PagesOf(newsize), PagesOf(s.size);
    BooksWith(s.mem, s.log, Books(s), l.invalid);
    DropRangeFrees(s.mem, s.log, l, from, to, b);
    DropRangeIndex(l, from, to, true);
    CutLive(s.tree, from, to, b);
  }

  lemma TruncateSameBlocks(s: State, c: seq<byte>, r: Rec, newsize: nat, a: set<nat>)
    requires Sound(s, [], c) && Mapped(s.mem, s.tree)
    ensures SameBlocks(s, a, Truncated(s, r, newsize), a)
  {
    forall b: nat
      ensures Holds(s, a, b) <==> Holds(Truncated(s, r, newsize), a, b)
    {
      TruncateConserves(s, c, r, newsize, b);
    }
  }

  lemma BooksWith(mem: seq<byte>, log: seq<Rec>, l: Ledger, invalid: map<nat, nat>)
    requires Booked(mem, log, l) && HasCounter(log, invalid)
    ensures Booked(mem, log, l.(invalid := invalid))
  {
    forall p: nat
      ensures Backed(mem, log, l.(invalid := invalid), p)
    {
      assert Backed(mem, log, l, p);
    }
  }

  lemma CutLive(tree: map<nat, Rec>, from: nat, to: nat, b: nat)
    ensures Live(Cut(tree, from, to), b) || BacksIn(tree, from, to, b) <==> Live(tree, b)
  {
    if Live(tree, b) {
      var p: nat :| Backs(tree, p, b);
      assert !(from <= p < to) ==> Backs(Cut(tree, from, to), p, b);
    }
    if Live(Cut(tree, from, to), b) {
      var p: nat :| Backs(Cut(tree, from, to), p, b);
      assert Backs(tree, p, b);
    }
  }

  // ---------------------------------------------------------------------------------------
  // Attribute records and truncation
  // ---------------------------------------------------------------------------------------

  /** A record without pages of its own joins the log. */
  lemma AppendedBooks(s: State, r: Rec)
    requires Booked(s.mem, s.log, Books(s)) && Counted(s.log, s.tree, s.invalid, s.exact) && !r.e.Write?
    requires forall i :: 0 <= i < |s.log| ==> s.log[i].addr < r.addr
    ensures var t := s.(log := s.log + [r], invalid := s.invalid[r.addr := 0]);
            Booked(t.mem, t.log, Books(t)) && Counted(t.log, t.tree, t.invalid, t.exact)
  {
    var t := s.(log := s.log + [r], invalid := s.invalid[r.addr := 0]);
    forall i | 0 <= i < |s.log|
      ensures t.log[i] == s.log[i] && Accounted(t.tree, t.invalid, t.log[i]) == Accounted(s.tree, s.invalid, s.log[i])
    {
    }
    forall p: nat
      ensures Backed(t.mem, t.log, Books(t), p)
    {
      assert Backed(s.mem, s.log, Books(s), p);
    }
  }

  lemma AppendedHoused(mem: seq<byte>, mem': seq<byte>, log: seq<Rec>, r: Rec)
    requires Housed(mem, log) && !r.e.Write? && |mem'| == |mem|
    ensures Housed(mem', log + [r])
  {
    forall i, p | 0 <= i < |log + [r]| && Covers((log + [r])[i], p)
      ensures InDevice(mem', BlockOf((log + [r])[i], p))
    {
      assert Covers(log[i], p);
    }
  }

  lemma AppendedIndex(s: State, r: Rec)
    requires IndexIsLog(s)
    requires r.e.LinkChange? || (r.e.SetAttr? && !r.e.setsSize && r.e.size == s.size)
    ensures IndexIsLog(s.(log := s.log + [r], invalid := s.invalid[r.addr := 0]))
  {
    var log := s.log + [r];
    ReplayAppend(EMPTY, s.log, r, {});
    assert log[..|s.log|] == s.log;
    SettledSize(s.log, {});
    assert LastOf(log, Resizes) == LastOf(s.log, Resizes);
  }

  lemma AppendedIsSound(s: State, r: Rec, c: seq<byte>)
    requires Sound(s, [], c)
    requires r.e.LinkChange? || (r.e.SetAttr? && !r.e.setsSize && r.e.size == s.size)
    requires forall i :: 0 <= i < |s.log| ==> s.log[i].addr < r.addr
    ensures var t := s.(log := s.log + [r], invalid := s.invalid[r.addr := 0]);
            Sound(t, [], c)
  {
    SoundParts(s, [], c);
    var t := s.(log := s.log + [r], invalid := s.invalid[r.addr := 0]);
    AppendedBooks(s, r);
    AppendedIndex(s, r);
    AppendedHoused(s.mem, s.mem, s.log, r);
    assert t.log + [] == t.log;
  }

  /** The memory once the last page is cleared beyond the new size. */
  function Cleared(mem: seq<byte>, tree: map<nat, Rec>, newsize: nat, size: nat): seq<byte>
    requires forall p :: p in tree ==> Covers(tree[p], p) && InDevice(mem, BlockOf(tree[p], p))
  {
    var offset, p := newsize % PAGE, newsize / PAGE;
    if offset == 0 || newsize >= size || p !in tree then mem
    else Patch(mem, BlockOf(tree[p], p), offset, Zeros(PAGE - offset))
  }

  ghost function Truncated(s: State, r: Rec, newsize: nat): State
    requires Mapped(s.mem, s.tree)
  {
    var l := DropRange(Ledger(s.tree, s.invalid[r.addr := 0], s.free), PagesOf(newsize), PagesOf(s.size), true);
    State(Cleared(s.mem, s.tree, newsize, s.size), s.log + [r], l.invalid, l.tree, newsize, l.free, s.exact)
  }

  lemma TruncatedReads(s: State, newsize: nat, c: seq<byte>)
    requires Reads(s.mem, s.tree, c) && s.size == |c|
    requires forall p, q :: p in s.tree && q in s.tree && p != q ==> BlockOf(s.tree[p], p) != BlockOf(s.tree[q], q)
    requires forall p :: p in s.tree ==> p < PagesOf(s.size)
    ensures Reads(Cleared(s.mem, s.tree, newsize, s.size), Cut(s.tree, PagesOf(newsize), PagesOf(s.size)),
                  Resized(c, newsize))
  {
    var tree := Cut(s.tree, PagesOf(newsize), PagesOf(s.size));
    var mem := Cleared(s.mem, s.tree, newsize, s.size);
    forall off: nat
      ensures Mapped(mem, tree) && ByteAt(mem, tree, off) == At(Resized(c, newsize), off)
    {
      var p: nat := off / PAGE;
      assert ByteAt(s.mem, s.tree, off) == At(c, off);
      if p in tree {
        if off >= newsize {
          assert p < PagesOf(newsize);
          assert p == newsize / PAGE;
        }
      } else if p in s.tree {
        assert PagesOf(newsize) <= p;
      }
    }
  }

  lemma TruncatedIndex(s: State, r: Rec, newsize: nat)
    requires IndexIsLog(s) && r.e.SetAttr? && r.e.setsSize && r.e.size == newsize
    ensures WellSized(s.log + [r]) && Settled(s.log + [r]) && Meaning(s.log + [r]).size == newsize
    ensures Meaning(s.log + [r]).tree == Cut(s.tree, PagesOf(newsize), PagesOf(s.size))
  {
    var log := s.log + [r];
    ReplayAppend(EMPTY, s.log, r, {});
    assert LastOf(log, Resizes) == |s.log|;
    if newsize >= s.size {
      PagesMonotone(s.size, newsize);
      assert Cut(s.tree, PagesOf(newsize), PagesOf(s.size)) == s.tree;
    }
  }

  lemma BookedElsewhere(mem: seq<byte>, mem': seq<byte>, log: seq<Rec>, l: Ledger)
    requires Booked(mem, log, l) && |mem'| == |mem|
    ensures Booked(mem', log, l)
  {
    forall p: nat
      ensures Backed(mem', log, l, p)
    {
      assert Backed(mem, log, l, p);
    }
  }

  lemma BooksAreApart(mem: seq<byte>, log: seq<Rec>, l: Ledger)
    requires Booked(mem, log, l) && Mapped(mem, l.tree)
    ensures forall p, q :: p in l.tree && q in l.tree && p != q ==> BlockOf(l.tree[p], p) != BlockOf(l.tree[q], q)
  {
    forall p, q | p in l.tree && q in l.tree && p != q
      ensures BlockOf(l.tree[p], p) != BlockOf(l.tree[q], q)
    {
      assert Apart(l.tree, p, q);
    }
  }

  /** A truncate leaves a sound file that reads as the resized one. */
  lemma TruncateSound(s: State, r: Rec, newsize: nat, c: seq<byte>)
    requires Sound(s, [], c) && r.e.SetAttr? && r.e.setsSize && r.e.size == newsize
    requires forall i :: 0 <= i < |s.log| ==> s.log[i].addr < r.addr
    ensures Mapped(s.mem, s.tree)
    ensures var mem := Cleared(s.mem, s.tree, newsize, s.size); var log, inv := s.log + [r], s.invalid[r.addr := 0];
            Booked(mem, log, Ledger(s.tree, inv, s.free)) && Counted(log, s.tree, inv, s.exact)
    ensures Sound(Truncated(s, r, newsize), [], Resized(c, newsize))
  {
    SoundParts(s, [], c);
    AppendedBooks(s, r);
    var mem := Cleared(s.mem, s.tree, newsize, s.size);
    var log, l := s.log + [r], Ledger(s.tree, s.invalid[r.addr := 0], s.free);
    BookedElsewhere(s.mem, mem, log, l);
    DropRangeKeepsBooks(mem, log, l, PagesOf(newsize), PagesOf(s.size));
    DropRangeIndex(l, PagesOf(newsize), PagesOf(s.size), true);
    TruncatedIndex(s, r, newsize);
    BooksAreApart(s.mem, s.log, Books(s));
    forall p | p in s.tree
      ensures p < PagesOf(s.size)
    {
      KeysBelowSize(s.log, p);
    }
    TruncatedReads(s, newsize, c);
    TruncatedCounts(log, l, PagesOf(newsize), PagesOf(s.size), s.exact);
    AppendedHoused(s.mem, mem, s.log, r);
    assert log + [] == log;
  }

  lemma TruncatedCounts(log: seq<Rec>, l: Ledger, from: nat, to: nat, exact: bool)
    requires Counted(log, l.tree, l.invalid, exact) && HasCounter(log, DropRange(l, from, to, true).invalid)
    requires forall i :: 0 <= i < |log| ==> Gained(log, l, DropRange(l, from, to, true), log[i], 0, i)
    ensures var m := DropRange(l, from, to, true); Counted(log, m.tree, m.invalid, exact)
  {
    var m := DropRange(l, from, to, true);
    forall i | 0 <= i < |log|
      ensures Accounted(m.tree, m.invalid, log[i]) == Accounted(l.tree, l.invalid, log[i])
    {
      assert Gained(log, l, m, log[i], 0, i);
    }
  }
}
