/**
 Collections of the log in the middle of an operation on the file: what a crash at any of their
 stores leaves, and the file afterwards.
 */
module FileGc {
  import opened FileLog
  import opened FileData
  import opened FileBooks
  import opened FileState
  import opened FileCrash
  import opened LogChain
  import opened CopyLog
  import Fast = LogCollect
  import Thorough = LogCompact

  // ---------------------------------------------------------------------------------------
  // What a collection may rely on
  // ---------------------------------------------------------------------------------------

  /** The counters of a sound file tell a collection the truth. */
  lemma SoundCountersTell(s: State, pend: seq<Rec>, c: seq<byte>, m: Marks)
    requires Sound(s, pend, c) && m.invalid == s.invalid
    ensures CountersTell(s.log, m)
  {
    SoundParts(s, pend, c);
    forall i | 0 <= i < |s.log| && s.log[i].e.Write? && EntryInvalid(s.log[i], m)
      ensures !Owns(Meaning(s.log).tree, s.log[i])
    {
      FullCounterIsDead(s.log, s.tree, s.invalid, s.exact, i);
    }
  }

  /** The cells in flight are none of the file's. */
  ghost predicate Aside(s: State, torn: iset<(nat, nat)>) {
    forall p, i: nat :: Backs(s.tree, p, i) ==> forall j: nat :: (i, j) !in torn
  }

  lemma TakenIsAside(s: State, taken: set<nat>)
    requires forall b :: b in taken ==> !Live(s.tree, b)
    ensures Aside(s, BlockCells(taken))
  {
    forall p, i: nat, j: nat | Backs(s.tree, p, i)
      ensures (i, j) !in BlockCells(taken)
    {
      assert Live(s.tree, i);
    }
  }

  // ---------------------------------------------------------------------------------------
  // Records dropped
  // ---------------------------------------------------------------------------------------

  ghost function Dropped(s: State, drop: set<nat>): State {
    s.(log := Filter(s.log, drop))
  }

  lemma MoveNothing(log: seq<Rec>, tree: map<nat, Rec>)
    ensures MoveLog(log, map[]) == log && MoveTree(tree, map[]) == tree
  {
  }

  lemma {:induction false} FilterDistinct(log: seq<Rec>, drop: set<nat>, pend: seq<Rec>)
    requires DistinctAddrs(log + pend)
    ensures DistinctAddrs(Filter(log, drop) + pend)
  {
    if log != [] {
      var k := |log| - 1;
      var kept, r := Filter(log[..k], drop), log[k];
      assert log + pend == log[..k] + ([r] + pend);
      FilterDistinct(log[..k], drop, [r] + pend);
      if r.addr in drop {
        assert Filter(log, drop) == kept;
        DistinctWithout(kept, r, pend);
      } else {
        assert Filter(log, drop) + pend == kept + ([r] + pend);
      }
    }
  }

  lemma DistinctWithout(a: seq<Rec>, r: Rec, b: seq<Rec>)
    requires DistinctAddrs(a + ([r] + b))
    ensures DistinctAddrs(a + b)
  {
    var all := a + ([r] + b);
    assert forall i :: 0 <= i < |a + b| ==> (a + b)[i] == all[if i < |a| then i else i + 1];
  }

  /** A sound file stays sound when records are dropped that its counters call dead. */
  lemma DroppedIsSound(s: State, pend: seq<Rec>, c: seq<byte>, drop: set<nat>)
    requires Sound(s, pend, c) && Droppable(s, drop)
    ensures Sound(Dropped(s, drop), pend, c)
  {
    SoundParts(s, pend, c);
    var kept := Filter(s.log, drop);
    MoveNothing(kept, s.tree);
    FilterDistinct(s.log, drop, pend);
    FilterMembers(s.log, drop);
    forall i | 0 <= i < |kept|
      ensures kept[i].addr in s.invalid
    {
      assert kept[i] in kept;
    }
    CollectedIsSound(s, drop, map[], s.invalid, pend, c);
  }

  /** A crash at which the log lacks such records. */
  lemma DroppedRecovers(s: State, pend: seq<Rec>, c: seq<byte>, drop: set<nat>, torn: iset<(nat, nat)>)
    requires Sound(s, pend, c) && Droppable(s, drop) && Aside(s, torn)
    ensures RecoversTo(CrashPoint(Filter(s.log, drop), s.invalid, s.mem, torn, s.free), c)
  {
    DroppedIsSound(s, pend, c, drop);
    var t := Dropped(s, drop);
    assert HasCounter(t.log, t.invalid) by {
      SoundParts(t, pend, c);
    }
    SoundRecovers(t, pend, c, CrashPoint(t.log, s.invalid, s.mem, torn, s.free));
  }

  /** What the validity test rejects may be dropped, wherever the marks point. */
  lemma InvalidIsDroppable(s: State, drop: set<nat>, m: Marks)
    requires AllInvalid(s.log, drop, m) && m.invalid == s.invalid
    ensures Droppable(s, drop)
  {
  }

  // ---------------------------------------------------------------------------------------
  // The fast collection
  // ---------------------------------------------------------------------------------------

  /** The log that a mount reads from a crash image. */
  ghost function LogAt(j: Fast.Job, k: Image): seq<Rec> {
    if AllPresent(j.recs, k.chain) && k.t < |k.chain| && j.count <= |j.recs[k.chain[k.t]]|
    then LogOn(j.recs, k.chain, k.t, j.count) else []
  }

  ghost function FastPoints(s: State, j: Fast.Job, ks: seq<Image>, torn: iset<(nat, nat)>): seq<CrashPoint> {
    seq(|ks|, i requires 0 <= i < |ks| => CrashPoint(LogAt(j, ks[i]), s.invalid, s.mem, torn, s.free))
  }

  /** The collection `j` of the file `s`. */
  ghost predicate FastOf(s: State, j: Fast.Job, start: Fast.Disk, ks: seq<Image>) {
    && Fast.Proper(j) && Fast.LogOf(j) == s.log && j.m.invalid == s.invalid
    && Fast.Trace(j, start, ks) && ks != []
  }

  lemma FastImage(s: State, j: Fast.Job, start: Fast.Disk, ks: seq<Image>, i: nat)
    requires FastOf(s, j, start, ks) && i < |ks|
    ensures LogAt(j, ks[i]) == Filter(s.log, ks[i].drop) && Droppable(s, ks[i].drop)
  {
    Fast.SaneAt(j, start, ks, i);
    Fast.SaneParts(j, ks[i]);
    InvalidIsDroppable(s, ks[i].drop, j.m);
  }

  /** Whichever store of a fast collection a crash follows, a mount rebuilds a sound file with the
      same bytes. */
  lemma FastCrashRecovers(s: State, pend: seq<Rec>, c: seq<byte>, j: Fast.Job, start: Fast.Disk, ks: seq<Image>,
                          torn: iset<(nat, nat)>)
    requires Sound(s, pend, c) && FastOf(s, j, start, ks) && Aside(s, torn)
    ensures AllRecover(FastPoints(s, j, ks, torn), c)
  {
    forall i | 0 <= i < |ks|
      ensures RecoversTo(FastPoints(s, j, ks, torn)[i], c)
    {
      FastImage(s, j, start, ks, i);
      DroppedRecovers(s, pend, c, ks[i].drop, torn);
    }
    RecoverEach(FastPoints(s, j, ks, torn), c);
  }

  /** And so does the running system. */
  lemma FastIsSound(s: State, pend: seq<Rec>, c: seq<byte>, j: Fast.Job, start: Fast.Disk, ks: seq<Image>)
    requires Sound(s, pend, c) && FastOf(s, j, start, ks)
    ensures Sound(s.(log := LogAt(j, ks[|ks| - 1])), pend, c)
  {
    var k := |ks| - 1;
    FastImage(s, j, start, ks, k);
    DroppedIsSound(s, pend, c, ks[k].drop);
  }

  lemma {:induction false} FilterFrom(log: seq<Rec>, drop: set<nat>)
    ensures forall r :: r in Filter(log, drop) ==> r in log
  {
    if log != [] {
      FilterFrom(log[..|log| - 1], drop);
    }
  }

  /** A fast collection brings no new record into the log. */
  lemma FastLogs(s: State, j: Fast.Job, start: Fast.Disk, ks: seq<Image>, before: seq<CrashPoint>,
                 points: seq<CrashPoint>, torn: iset<(nat, nat)>)
    requires FastOf(s, j, start, ks) && points == FastPoints(s, j, ks, torn)
    ensures LogsWithin(before + points, |before|, s.log, []) && OnlyFrom(LogAt(j, ks[|ks| - 1]), s.log, [])
  {
    forall i | 0 <= i < |ks|
      ensures OnlyFrom(LogAt(j, ks[i]), s.log, [])
    {
      FastImage(s, j, start, ks, i);
      FilterFrom(s.log, ks[i].drop);
    }
  }

  // ---------------------------------------------------------------------------------------
  // The thorough collection
  // ---------------------------------------------------------------------------------------

  ghost function LogIn(k: Thorough.Snap, count: nat): seq<Rec> {
    if AllPresent(k.n.recs, k.chain) && k.t < |k.chain| && count <= |k.n.recs[k.chain[k.t]]|
    then LogOn(k.n.recs, k.chain, k.t, count) else []
  }

  /** The counters of the copies are stored with them; those of the old records stay. */
  ghost function ThoroughPoints(s: State, ks: seq<Thorough.Snap>, count: nat, invalid: map<nat, nat>,
                                torn: iset<(nat, nat)>): seq<CrashPoint> {
    seq(|ks|, i requires 0 <= i < |ks| => CrashPoint(LogIn(ks[i], count), invalid, s.mem, torn, s.free))
  }

  /** The collection `w` of the file `s`, with the records `pend` beyond its tail. */
  ghost predicate ThoroughOf(s: State, pend: seq<Rec>, w: Thorough.Work, c: Copy) {
    && w.log + w.end == s.log && w.rest == w.end + pend && w.m.invalid == s.invalid && w.tree == s.tree
    && Copying(c, w.log, |w.log|, w.m, w.tree) && NewPages(c.pages, w.log + w.rest)
  }

  /** The two traces of a thorough collection: up to the switch of the head, and from it on. */
  ghost predicate ThoroughTraces(w: Thorough.Work, c: Copy, start: Thorough.Nvm, ks: seq<Thorough.Snap>,
                                 mid: Thorough.Nvm, ls: seq<Thorough.Snap>, end: Thorough.Nvm) {
    Thorough.OldAllAlong(w, start, ks, mid) && Thorough.NewEverAfter(w, mid, ls, end, c)
  }

  ghost predicate ThoroughRun(s: State, pend: seq<Rec>, w: Thorough.Work, c: Copy, start: Thorough.Nvm,
                              ks: seq<Thorough.Snap>, mid: Thorough.Nvm, ls: seq<Thorough.Snap>, end: Thorough.Nvm) {
    forall x {:trigger Inside(TheTrace, x)} :: Inside(TheTrace, x) ==>
      ThoroughOf(s, pend, w, c) && ThoroughTraces(w, c, start, ks, mid, ls, end)
  }

  lemma ThoroughRunParts(s: State, pend: seq<Rec>, w: Thorough.Work, c: Copy, start: Thorough.Nvm,
                         ks: seq<Thorough.Snap>, mid: Thorough.Nvm, ls: seq<Thorough.Snap>, end: Thorough.Nvm)
    requires ThoroughRun(s, pend, w, c, start, ks, mid, ls, end)
    ensures ThoroughOf(s, pend, w, c) && ThoroughTraces(w, c, start, ks, mid, ls, end)
  {
    assert Inside(TheTrace, 0);
  }

  lemma LeftOutIsDroppable(s: State, log: seq<Rec>, end: seq<Rec>, m: Marks)
    requires s.log == log + end && DistinctAddrs(s.log) && m.invalid == s.invalid
    ensures Droppable(s, LeftOut(log, m))
  {
    LeftOutWithin(log, m);
    assert forall i :: 0 <= i < |log| ==> s.log[i] == log[i];
    assert DistinctAddrs(log);
    forall i | 0 <= i < |s.log| && s.log[i].addr in LeftOut(log, m)
      ensures s.log[i].e.SetAttr? ==> !s.log[i].e.setsSize
      ensures s.log[i].e.Write? ==> EntryInvalid(s.log[i], m)
    {
      var k :| 0 <= k < |log| && log[k].addr == s.log[i].addr;
      assert s.log[k] == log[k];
      LeftOutIff(log, m, k);
    }
  }

  lemma PendIsNew(s: State, pend: seq<Rec>, w: Thorough.Work, c: Copy)
    requires ThoroughOf(s, pend, w, c) && DistinctAddrs(s.log + pend)
    ensures NewPages(c.pages, w.end) && NewPages(c.pages, pend)
    ensures DistinctAddrs(Thorough.NewLog(w, c) + pend)
  {
    Thorough.NewToBoth(c.pages, w.log, w.rest);
    Thorough.NewToBoth(c.pages, w.end, pend);
    assert DistinctAddrs(w.rest) by {
      assert forall i :: 0 <= i < |w.rest| ==> (s.log + pend)[|w.log| + i] == w.rest[i];
    }
    Thorough.NewAddrs(w.(end := w.rest), c);
    assert Thorough.NewLog(w.(end := w.rest), c) == Thorough.NewLog(w, c) + pend;
  }

  lemma CountersOfKept(s: State, pend: seq<Rec>, w: Thorough.Work, c: Copy)
    requires ThoroughOf(s, pend, w, c) && NewPages(c.pages, w.end) && HasCounter(s.log, s.invalid)
    ensures CountersMoved(Filter(s.log, LeftOut(w.log, w.m)), c.to, s.invalid, c.m.invalid)
  {
    var kept := Filter(s.log, LeftOut(w.log, w.m));
    FilterMembers(s.log, LeftOut(w.log, w.m));
    forall i | 0 <= i < |kept|
      ensures SameCounter(c.m.invalid, Moved(kept[i], c.to).addr, s.invalid, kept[i].addr) && kept[i] in s.log
    {
      assert kept[i] in kept;
      Thorough.KeptHasCopy(w, c, kept[i]);
      Thorough.CopiedCounter(w, c, kept[i]);
    }
  }

  /** A counter that no copy has overwritten. */
  lemma CounterStays(w: Thorough.Work, c: Copy, r: Rec)
    requires Copying(c, w.log, |w.log|, w.m, w.tree) && PageOf(r) !in c.pages && r.addr in w.m.invalid
    ensures r.addr in c.m.invalid && c.m.invalid[r.addr] == w.m.invalid[r.addr]
  {
    Thorough.CopiesElsewhere(w, c, r);
    assert SameCounter(c.m.invalid, r.addr, w.m.invalid, r.addr);
  }

  /** The file after a thorough collection. */
  ghost function Compacted(s: State, w: Thorough.Work, c: Copy): State {
    s.(log := Thorough.NewLog(w, c), tree := c.tree, invalid := c.m.invalid)
  }

  lemma CompactedIsSound(s: State, pend: seq<Rec>, b: seq<byte>, w: Thorough.Work, c: Copy)
    requires Sound(s, pend, b) && ThoroughOf(s, pend, w, c)
    ensures Sound(Compacted(s, w, c), pend, b)
  {
    SoundParts(s, pend, b);
    var drop := LeftOut(w.log, w.m);
    assert w.log[..|w.log|] == w.log;
    PendIsNew(s, pend, w, c);
    LeftOutIsDroppable(s, w.log, w.end, w.m);
    CountersOfKept(s, pend, w, c);
    Thorough.NewLogIsMoved(w, c);
    forall i | 0 <= i < |pend|
      ensures pend[i].addr in c.m.invalid && c.m.invalid[pend[i].addr] == 0
    {
      CounterStays(w, c, pend[i]);
    }
    CollectedIsSound(s, drop, c.to, c.m.invalid, pend, b);
    assert Compacted(s, w, c) == Collected(s, drop, c.to, c.m.invalid);
  }

  /** Up to the switch of the head: the counters of the copies do not matter yet. */
  lemma OldLogRecovers(s: State, pend: seq<Rec>, b: seq<byte>, w: Thorough.Work, c: Copy, torn: iset<(nat, nat)>)
    requires Sound(s, pend, b) && ThoroughOf(s, pend, w, c) && Aside(s, torn)
    ensures RecoversTo(CrashPoint(s.log, c.m.invalid, s.mem, torn, s.free), b)
  {
    assert Lags(s.log, c.m.invalid, s.invalid) by {
      SoundParts(s, pend, b);
      Thorough.NewToBoth(c.pages, w.log, w.rest);
      Thorough.NewToBoth(c.pages, w.end, pend);
      forall i | 0 <= i < |s.log|
        ensures s.log[i].addr in c.m.invalid && c.m.invalid[s.log[i].addr] == s.invalid[s.log[i].addr]
      {
        assert s.log[i] == if i < |w.log| then w.log[i] else w.end[i - |w.log|];
        CounterStays(w, c, s.log[i]);
      }
    }
    SoundRecovers(s, pend, b, CrashPoint(s.log, c.m.invalid, s.mem, torn, s.free));
  }

  /** From then on. */
  lemma NewLogRecovers(s: State, pend: seq<Rec>, b: seq<byte>, w: Thorough.Work, c: Copy, torn: iset<(nat, nat)>)
    requires Sound(s, pend, b) && ThoroughOf(s, pend, w, c) && Aside(s, torn)
    ensures RecoversTo(CrashPoint(Thorough.NewLog(w, c), c.m.invalid, s.mem, torn, s.free), b)
  {
    var t := Compacted(s, w, c);
    CompactedIsSound(s, pend, b, w, c);
    assert HasCounter(t.log, t.invalid) by {
      SoundParts(t, pend, b);
    }
    assert Aside(t, torn) by {
      assert forall p, i: nat :: Backs(t.tree, p, i) ==> Backs(s.tree, p, i);
    }
    SoundRecovers(t, pend, b, CrashPoint(t.log, t.invalid, s.mem, torn, s.free));
  }

  /** Whichever store of a thorough collection a crash follows, a mount rebuilds a sound file with
      the same bytes. */
  lemma ThoroughCrashRecovers(s: State, pend: seq<Rec>, b: seq<byte>, w: Thorough.Work, c: Copy, start: Thorough.Nvm,
                              ks: seq<Thorough.Snap>, mid: Thorough.Nvm, ls: seq<Thorough.Snap>, end: Thorough.Nvm,
                              torn: iset<(nat, nat)>)
    requires Sound(s, pend, b) && ThoroughOf(s, pend, w, c) && Aside(s, torn)
    requires ThoroughTraces(w, c, start, ks, mid, ls, end)
    ensures AllRecover(ThoroughPoints(s, ks + ls, w.count, c.m.invalid, torn), b)
  {
    OldPointsRecover(s, pend, b, w, c, start, ks, mid, torn);
    NewPointsRecover(s, pend, b, w, c, mid, ls, end, torn);
    var inv := c.m.invalid;
    var a, z := ThoroughPoints(s, ks, w.count, inv, torn), ThoroughPoints(s, ls, w.count, inv, torn);
    RecoverBoth(a, z, b);
    assert ThoroughPoints(s, ks + ls, w.count, inv, torn) == a + z;
  }

  lemma OldPointsRecover(s: State, pend: seq<Rec>, b: seq<byte>, w: Thorough.Work, c: Copy, start: Thorough.Nvm,
                         ks: seq<Thorough.Snap>, mid: Thorough.Nvm, torn: iset<(nat, nat)>)
    requires Sound(s, pend, b) && ThoroughOf(s, pend, w, c) && Aside(s, torn)
    requires Thorough.OldAllAlong(w, start, ks, mid)
    ensures AllRecover(ThoroughPoints(s, ks, w.count, c.m.invalid, torn), b)
  {
    OldLogRecovers(s, pend, b, w, c, torn);
    forall i | 0 <= i < |ks|
      ensures LogIn(ks[i], w.count) == s.log
    {
      LogBefore(w, start, ks, mid, i);
    }
    SamePointRecovers(s, ks, w.count, c.m.invalid, torn, s.log, b);
  }

  lemma NewPointsRecover(s: State, pend: seq<Rec>, b: seq<byte>, w: Thorough.Work, c: Copy, mid: Thorough.Nvm,
                         ls: seq<Thorough.Snap>, end: Thorough.Nvm, torn: iset<(nat, nat)>)
    requires Sound(s, pend, b) && ThoroughOf(s, pend, w, c) && Aside(s, torn)
    requires Thorough.NewEverAfter(w, mid, ls, end, c)
    ensures AllRecover(ThoroughPoints(s, ls, w.count, c.m.invalid, torn), b)
  {
    NewLogRecovers(s, pend, b, w, c, torn);
    forall i | 0 <= i < |ls|
      ensures LogIn(ls[i], w.count) == Thorough.NewLog(w, c)
    {
      LogAfter(w, c, mid, ls, end, i);
    }
    SamePointRecovers(s, ls, w.count, c.m.invalid, torn, Thorough.NewLog(w, c), b);
  }

  lemma SamePointRecovers(s: State, ks: seq<Thorough.Snap>, count: nat, invalid: map<nat, nat>, torn: iset<(nat, nat)>,
                          log: seq<Rec>, b: seq<byte>)
    requires RecoversTo(CrashPoint(log, invalid, s.mem, torn, s.free), b)
    requires forall i :: 0 <= i < |ks| ==> LogIn(ks[i], count) == log
    ensures AllRecover(ThoroughPoints(s, ks, count, invalid, torn), b)
  {
    var k, points := CrashPoint(log, invalid, s.mem, torn, s.free), ThoroughPoints(s, ks, count, invalid, torn);
    assert forall i :: 0 <= i < |points| ==> points[i] == k;
    RecoverEach(points, b);
  }

  lemma LogBefore(w: Thorough.Work, start: Thorough.Nvm, ks: seq<Thorough.Snap>, mid: Thorough.Nvm, i: nat)
    requires Thorough.OldAllAlong(w, start, ks, mid) && i < |ks|
    ensures LogIn(ks[i], w.count) == w.log + w.end
  {
    Thorough.OldParts(w, start, ks, mid);
    Thorough.TraceAt(start, ks, w.s[w.t], w.count, w.log + w.end, i);
  }

  lemma LogAfter(w: Thorough.Work, c: Copy, mid: Thorough.Nvm, ls: seq<Thorough.Snap>, end: Thorough.Nvm, i: nat)
    requires Thorough.NewEverAfter(w, mid, ls, end, c) && i < |ls|
    ensures LogIn(ls[i], w.count) == Thorough.NewLog(w, c)
  {
    Thorough.TraceAt(mid, ls, w.s[w.t], w.count, Thorough.NewLog(w, c), i);
  }

  /** The file after a thorough collection, and the moments of an operation with those of the
      collection. */
  lemma ThoroughMoments(s: State, pend: seq<Rec>, b: seq<byte>, w: Thorough.Work, c: Copy, start: Thorough.Nvm,
                        ks: seq<Thorough.Snap>, mid: Thorough.Nvm, ls: seq<Thorough.Snap>, end: Thorough.Nvm,
                        now: seq<Rec>, m: Marks, tree: map<nat, Rec>, taken: set<nat>, before: seq<CrashPoint>,
                        points: seq<CrashPoint>)
    requires Sound(s, pend, b) && ThoroughDone(w, c, start, ks, mid, ls, end, now, m, tree)
    requires w.log + w.end == s.log && w.rest == w.end + pend && w.m.invalid == s.invalid && w.tree == s.tree
    requires (forall x :: x in taken ==> !Live(s.tree, x)) && AllRecover(before, b)
    requires points == ThoroughPoints(s, ks + ls, w.count, c.m.invalid, BlockCells(taken))
    ensures ThoroughRun(s, pend, w, c, start, ks, mid, ls, end) && AllRecover(before + points, b)
    ensures Compacted(s, w, c) == s.(log := now, tree := tree, invalid := m.invalid)
    ensures Sound(Compacted(s, w, c), pend, b)
  {
    assert Inside(TheTrace, 0);
    CompactedIsSound(s, pend, b, w, c);
    TakenIsAside(s, taken);
    ThoroughCrashRecovers(s, pend, b, w, c, start, ks, mid, ls, end, BlockCells(taken));
    RecoverBoth(before, points, b);
  }

  /** During a thorough collection the log is the old one or the new one. */
  lemma ThoroughLogs(s: State, pend: seq<Rec>, w: Thorough.Work, c: Copy, start: Thorough.Nvm, ks: seq<Thorough.Snap>,
                     mid: Thorough.Nvm, ls: seq<Thorough.Snap>, end: Thorough.Nvm, before: seq<CrashPoint>,
                     points: seq<CrashPoint>, torn: iset<(nat, nat)>)
    requires ThoroughRun(s, pend, w, c, start, ks, mid, ls, end)
    requires points == ThoroughPoints(s, ks + ls, w.count, c.m.invalid, torn)
    ensures LogsWithin(before + points, |before|, s.log, Thorough.NewLog(w, c))
  {
    ThoroughRunParts(s, pend, w, c, start, ks, mid, ls, end);
    forall i | 0 <= i < |ks + ls|
      ensures LogIn((ks + ls)[i], w.count) == s.log || LogIn((ks + ls)[i], w.count) == Thorough.NewLog(w, c)
    {
      if i < |ks| {
        LogBefore(w, start, ks, mid, i);
      } else {
        LogAfter(w, c, mid, ls, end, i - |ks|);
      }
    }
    OneOfTwo(before, points, s.log, Thorough.NewLog(w, c));
  }

  lemma OneOfTwo(before: seq<CrashPoint>, points: seq<CrashPoint>, a: seq<Rec>, b: seq<Rec>)
    requires forall i :: 0 <= i < |points| ==> points[i].log == a || points[i].log == b
    ensures LogsWithin(before + points, |before|, a, b)
  {
  }

  /** A collection may start. */
  lemma CanCollect(s: State, pend: seq<Rec>, c: seq<byte>)
    requires Sound(s, pend, c)
    ensures DistinctAddrs(s.log) && forall p :: p in s.tree ==> s.tree[p] in s.log && Covers(s.tree[p], p)
  {
    SoundParts(s, pend, c);
    forall p | p in s.tree
      ensures s.tree[p] in s.log && Covers(s.tree[p], p)
    {
      assert Backed(s.mem, s.log, Books(s), p);
    }
  }

  /** All that a collection at the level of pages asks of log and counters, a sound file has. */
  lemma SoundIsTrusted(s: State, pend: seq<Rec>, b: seq<byte>, w: Thorough.Work, c: Copy)
    requires Sound(s, pend, b) && ThoroughOf(s, pend, w, c)
    ensures Thorough.Trusted(w)
  {
    SoundParts(s, pend, b);
    SoundCountersTell(s, pend, b, w.m);
  }

  // ---------------------------------------------------------------------------------------
  // Running a collection on the log of a file
  // ---------------------------------------------------------------------------------------

  function Joined(pages: seq<seq<Rec>>): seq<Rec> {
    if pages == [] then [] else Joined(pages[..|pages| - 1]) + pages[|pages| - 1]
  }

  lemma JoinedSnoc(pages: seq<seq<Rec>>, page: seq<Rec>)
    ensures Joined(pages + [page]) == Joined(pages) + page
  {
    assert (pages + [page])[..|pages|] == pages;
  }

  /** The records `log` on pages: how many there are on each is left open. */
  method LayOut(log: seq<Rec>) returns (pages: seq<seq<Rec>>)
    ensures pages != [] && Joined(pages) == log
  {
    pages := [[]];
    for i := 0 to |log|
      invariant pages != [] && Joined(pages) == log[..i]
    {
      var full: bool := *;
      var k := |pages| - 1;
      if full {
        JoinedSnoc(pages, [log[i]]);
        pages := pages + [[log[i]]];
      } else {
        JoinedSnoc(pages[..k], pages[k] + [log[i]]);
        pages := pages[..k] + [pages[k] + [log[i]]];
      }
    }
  }

  /** The numbers of `n` pages. */
  function Numbers(first: nat, n: nat): (s: seq<nat>)
    ensures |s| == n && forall i :: 0 <= i < n ==> s[i] == first + i
  {
    seq(n, i => first + i)
  }

  /** The links of these pages. */
  function Links(first: nat, n: nat): map<nat, nat> {
    map p | p in Numbers(first, n) :: if p + 1 < first + n then p + 1 else 0
  }

  function Ends(first: nat, n: nat): map<nat, nat> {
    map p | p in Numbers(first, n) :: 0
  }

  lemma LinksChain(first: nat, n: nat, next: map<nat, nat>)
    requires 0 < first && 0 < n && forall p :: p in Links(first, n) ==> p in next && next[p] == Links(first, n)[p]
    ensures IsChain(first, next, Numbers(first, n))
  {
    var s := Numbers(first, n);
    assert forall i :: 0 <= i < n ==> s[i] in s && s[i] in Links(first, n);
  }

  /** Pages with the given records. */
  function Contents(first: nat, pages: seq<seq<Rec>>): map<nat, seq<Rec>> {
    map p | p in Numbers(first, |pages|) :: pages[p - first]
  }

  lemma {:induction false} FlatJoined(recs: map<nat, seq<Rec>>, s: seq<nat>, pages: seq<seq<Rec>>, k: nat)
    requires |s| == |pages| && k <= |s| && AllPresent(recs, s)
    requires forall i :: 0 <= i < k ==> recs[s[i]] == pages[i]
    ensures Flat(recs, s[..k]) == Joined(pages[..k])
  {
    if k > 0 {
      FlatJoined(recs, s, pages, k - 1);
      FlatPrefix(recs, s, k - 1);
      assert pages[..k] == pages[..k - 1] + [pages[k - 1]];
      JoinedSnoc(pages[..k - 1], pages[k - 1]);
    }
  }

  /** The records of a file on pages: `front` those of the log, `back` those beyond the tail, which
      begin on the tail page. */
  function Sheets(front: seq<seq<Rec>>, back: seq<seq<Rec>>): seq<seq<Rec>>
    requires front != [] && back != []
  {
    front[..|front| - 1] + [front[|front| - 1] + back[0]] + back[1..]
  }

  lemma SheetsHold(front: seq<seq<Rec>>, back: seq<seq<Rec>>, recs: map<nat, seq<Rec>>, s: seq<nat>)
    requires front != [] && back != [] && |s| == |Sheets(front, back)| && AllPresent(recs, s)
    requires forall i :: 0 <= i < |s| ==> recs[s[i]] == Sheets(front, back)[i]
    ensures var t := |front| - 1;
            && t < |s| && |front[t]| <= |recs[s[t]]| && recs[s[t]][..|front[t]|] == front[t]
            && Flat(recs, s[..t]) == Joined(front[..t])
            && LogOn(recs, s, t, |front[t]|) == Joined(front)
  {
    var t, pages := |front| - 1, Sheets(front, back);
    assert pages[..t] == front[..t];
    FlatJoined(recs, s, pages, t);
  }

  /** Pages 1 to `n`, and from page `first` on `e` that are linked and `k` single ones. */
  method LinkPages(n: nat, first: nat, e: nat, k: nat) returns (next: map<nat, nat>)
    requires 0 < n < first && 0 < e
    ensures IsChain(1, next, Numbers(1, n)) && IsChain(first, next, Numbers(first, e))
    ensures Single(next, Numbers(first + e, k))
  {
    next := Links(1, n) + Links(first, e) + Ends(first + e, k);
    OldLinks(n, first, e, k, next);
    NewLinks(n, first, e, k, next);
    SpareLinks(n, first, e, k, next);
  }

  ghost predicate Single(next: map<nat, nat>, pages: seq<nat>) {
    forall i :: 0 <= i < |pages| ==> pages[i] in next && next[pages[i]] == 0
  }

  lemma OldLinks(n: nat, first: nat, e: nat, k: nat, next: map<nat, nat>)
    requires 0 < n < first && next == Links(1, n) + Links(first, e) + Ends(first + e, k)
    ensures IsChain(1, next, Numbers(1, n))
  {
    forall p | p in Links(1, n)
      ensures p in next && next[p] == Links(1, n)[p]
    {
      assert p in Numbers(1, n) && p !in Numbers(first, e) && p !in Numbers(first + e, k);
    }
    LinksChain(1, n, next);
  }

  lemma NewLinks(n: nat, first: nat, e: nat, k: nat, next: map<nat, nat>)
    requires 0 < first && 0 < e && next == Links(1, n) + Links(first, e) + Ends(first + e, k)
    ensures IsChain(first, next, Numbers(first, e))
  {
    forall p | p in Links(first, e)
      ensures p in next && next[p] == Links(first, e)[p]
    {
      assert p in Numbers(first, e) && p !in Numbers(first + e, k);
    }
    LinksChain(first, e, next);
  }

  lemma SpareLinks(n: nat, first: nat, e: nat, k: nat, next: map<nat, nat>)
    requires next == Links(1, n) + Links(first, e) + Ends(first + e, k)
    ensures Single(next, Numbers(first + e, k))
  {
    var spare := Numbers(first + e, k);
    assert forall i :: 0 <= i < k ==> spare[i] in spare;
  }

  ghost predicate Written(recs: map<nat, seq<Rec>>, s: seq<nat>, pages: seq<seq<Rec>>) {
    |s| == |pages| && forall i :: 0 <= i < |s| ==> s[i] in recs && recs[s[i]] == pages[i]
  }

  ghost predicate AllEmpty(recs: map<nat, seq<Rec>>, s: seq<nat>) {
    forall i :: 0 <= i < |s| ==> s[i] in recs && recs[s[i]] == []
  }

  /** The records on these pages. */
  method FillPages(pages: seq<seq<Rec>>, first: nat, e: nat) returns (recs: map<nat, seq<Rec>>)
    requires |pages| < first
    ensures Written(recs, Numbers(1, |pages|), pages) && AllEmpty(recs, Numbers(first, e))
  {
    recs := Contents(1, pages) + map p | p in Numbers(first, e) :: [];
    var a, b := Numbers(1, |pages|), Numbers(first, e);
    assert forall i :: 0 <= i < |a| ==> a[i] in a && a[i] !in b;
    assert forall i :: 0 <= i < |b| ==> b[i] in b;
  }

  lemma SpaceIsProper(front: seq<seq<Rec>>, back: seq<seq<Rec>>, recs: map<nat, seq<Rec>>, s: seq<nat>,
                      extra: seq<nat>, m: Marks, j: Fast.Job)
    requires front != [] && back != [] && DistinctAddrs(Joined(front))
    requires Written(recs, s, Sheets(front, back)) && AllPresent(recs, extra) && Separate(s, extra)
    requires j == Fast.Job(recs, s, |front| - 1, |front[|front| - 1]|, m, extra, {})
    ensures Fast.Proper(j) && Fast.LogOf(j) == Joined(front)
  {
    SheetsHold(front, back, recs, s);
  }

  /** The collection began with the pages of the log and has ended. */
  ghost predicate FastDone(j: Fast.Job, start: Fast.Disk, d: Fast.Disk) {
    Fast.Proper(j) && IsChain(start.head, start.next, j.s) && Fast.Done(j, d)
  }

  /** nova_extend_inode_log: new pages are linked behind the log, after a fast collection.  How the
      log lies on its pages is left open. */
  method RunFast(log: seq<Rec>, pend: seq<Rec>, m: Marks)
    returns (now: seq<Rec>, ghost j: Fast.Job, ghost start: Fast.Disk, ghost ks: seq<Image>)
    requires DistinctAddrs(log)
    ensures Fast.Proper(j) && Fast.LogOf(j) == log && j.m == m && Fast.Trace(j, start, ks) && ks != []
    ensures now == LogAt(j, ks[|ks| - 1]) && FastDone(j, start, Fast.DiskOf(ks[|ks| - 1]))
  {
    var front := LayOut(log);
    var back := LayOut(pend);
    var pages, more: int := Sheets(front, back), *;
    var n, t, e: nat := |pages|, |front| - 1, if more > 0 then more else 1;
    var next := LinkPages(n, n + 1, e, 0);
    var recs := FillPages(pages, n + 1, e);
    j := Fast.Job(recs, Numbers(1, n), t, |front[t]|, m, Numbers(n + 1, e), {});
    SpaceIsProper(front, back, recs, Numbers(1, n), Numbers(n + 1, e), m, j);
    now, start, ks := FastOn(next, recs, n, t + 1, |front[t]|, m, j);
  }

  /** The collection itself, and what is read from the log afterwards. */
  method FastOn(next: map<nat, nat>, recs: map<nat, seq<Rec>>, n: nat, tail: nat, count: nat, m: Marks,
                ghost j: Fast.Job)
    returns (now: seq<Rec>, ghost start: Fast.Disk, ghost ks: seq<Image>)
    requires Fast.Proper(j) && j.recs == recs && j.m == m && j.was == {} && j.count == count
    requires IsChain(1, next, j.s) && IsChain(n + 1, next, j.extra) && j.s[j.t] == tail && n == j.s[|j.s| - 1]
    ensures Fast.Trace(j, start, ks) && ks != [] && now == LogAt(j, ks[|ks| - 1])
    ensures FastDone(j, start, Fast.DiskOf(ks[|ks| - 1]))
  {
    var space := new Fast.InodeLog.Of(1, next, recs);
    start := space.Durable();
    space.FastGc(n, n + 1, tail, m, j);
    ks := space.crashes;
    ghost var k := ks[|ks| - 1];
    Fast.SaneAt(j, start, ks, |ks| - 1);
    Fast.SaneParts(j, k);
    now := ReadLog(space.head, space.next, space.recs, tail, count, k.chain, k.t);
  }

  // The thorough collection

  lemma WorkIsGiven(w: Thorough.Work, log: seq<Rec>, tree: map<nat, Rec>)
    requires 0 < w.t < |w.s| && |w.end| == w.count && w.end <= w.rest && AllPresent(w.was, w.s)
    requires w.log == Flat(w.was, w.s[..w.t]) && w.log + w.end == log && w.tree == tree && DistinctAddrs(log)
    requires forall p :: p in tree ==> tree[p] in log && Covers(tree[p], p)
    ensures Thorough.Given(w)
  {
    assert forall i :: 0 <= i < |w.log| ==> log[i] == w.log[i];
    forall p, i | p in w.tree && 0 <= i < |w.log| && w.tree[p].addr == w.log[i].addr
      ensures w.tree[p] == w.log[i] && Covers(w.log[i], p)
    {
      var k :| 0 <= k < |log| && log[k] == tree[p];
      assert log[i] == w.log[i];
    }
  }

  /** Page numbers that no record lies on. */
  lemma NumbersAreNew(log: seq<Rec>, first: nat, e: nat)
    requires NewAddr(log) <= first
    ensures NewPages(Numbers(first, e), log)
  {
    forall i | 0 <= i < |log|
      ensures PageOf(log[i]) < first
    {
    }
  }

  lemma SparesAreBlank(w: Thorough.Work, n: Thorough.Nvm, c: Copy, spare: seq<nat>)
    requires Single(n.next, spare) && AllEmpty(n.recs, spare) && n.released == {} && 0 !in spare
    requires Separate(w.s, spare) && Separate(c.pages, spare) && NewPages(spare, w.log + w.rest)
    requires forall i, j :: 0 <= i < j < |spare| ==> spare[i] != spare[j]
    ensures Thorough.AllBlank(spare, w, n, c)
  {
    forall i | 0 <= i < |spare|
      ensures Thorough.Blank(spare[i], w, n, c)
    {
      assert spare[i] in spare;
    }
  }

  ghost predicate MayCompact(w: Thorough.Work, n: Thorough.Nvm, m: Marks, tree: map<nat, Rec>, tail: nat, newHead: nat,
                             pages: seq<nat>, spare: seq<nat>) {
    forall x {:trigger Inside(TheLoop, x)} :: Inside(TheLoop, x) ==>
      Thorough.Ready(w, n, m, tree, tail, newHead, pages, spare)
  }

  /** The log before the collection: pages `s`, of which the one before the last `back` holds the
      tail, and new pages that no record lies on. */
  lemma WorkIsReady(front: seq<seq<Rec>>, back: seq<seq<Rec>>, w: Thorough.Work, n: Thorough.Nvm, pages: seq<nat>,
                    spare: seq<nat>, log: seq<Rec>, pend: seq<Rec>)
    requires |front| > 1 && back != [] && log == Joined(front) && pend == Joined(back) && DistinctAddrs(log)
    requires Written(n.recs, w.s, Sheets(front, back)) && n.released == {} && IsChain(n.head, n.next, w.s)
    requires w.t == |front| - 1 && w.count == |front[w.t]| && w.was == n.recs && w.log == Joined(front[..w.t])
    requires w.end == front[w.t] && w.rest == w.end + pend
    requires forall p :: p in w.tree ==> w.tree[p] in log && Covers(w.tree[p], p)
    requires IsChain(w.newHead, n.next, pages) && AllEmpty(n.recs, pages) && Separate(w.s, pages)
    requires NewPages(pages, log + pend) && |spare| >= |log| && w.enough
    requires Thorough.AllBlank(spare, w, n, Copy(pages, 0, n.recs, map[], w.m, w.tree))
    ensures w.t < |w.s| && w.log + w.end == log
    ensures MayCompact(w, n, w.m, w.tree, w.s[w.t], w.newHead, pages, spare)
  {
    SheetsHold(front, back, n.recs, w.s);
    AllRecords(front, w.log, w.end, w.rest, log, pend);
    WorkIsGiven(w, log, w.tree);
    assert Thorough.ReadsAs(Thorough.Snap(n, w.s, w.t), w.s[w.t], w.count, log);
  }

  lemma EmptyParts(recs: map<nat, seq<Rec>>, first: nat, e: nat, k: nat)
    requires AllEmpty(recs, Numbers(first, e + k))
    ensures AllEmpty(recs, Numbers(first, e)) && AllEmpty(recs, Numbers(first + e, k))
  {
    var all, a, b := Numbers(first, e + k), Numbers(first, e), Numbers(first + e, k);
    assert forall i :: 0 <= i < e ==> a[i] == all[i];
    assert forall i :: 0 <= i < k ==> b[i] == all[e + i];
  }

  /** nova_inode_log_thorough_gc on the log of a file; a log of one page is left alone.  How the log
      lies on its pages and how many new ones are asked for at first is left open. */
  method RunThorough(log: seq<Rec>, pend: seq<Rec>, m: Marks, tree: map<nat, Rec>)
    returns (ok: bool, now: seq<Rec>, m': Marks, tree': map<nat, Rec>, ghost w: Thorough.Work, ghost c: Copy,
             ghost start: Thorough.Nvm, ghost ks: seq<Thorough.Snap>, ghost mid: Thorough.Nvm,
             ghost ls: seq<Thorough.Snap>, ghost end: Thorough.Nvm)
    requires DistinctAddrs(log) && forall p :: p in tree ==> tree[p] in log && Covers(tree[p], p)
    ensures !ok ==> now == log && m' == m && tree' == tree
    ensures ok ==> w.log + w.end == log && w.rest == w.end + pend && w.m == m && w.tree == tree
    ensures ok ==> ThoroughDone(w, c, start, ks, mid, ls, end, now, m', tree')
  {
    var front := LayOut(log);
    var back := LayOut(pend);
    ok, now, m', tree' := |front| > 1, log, m, tree;
    var pages, more: int := Sheets(front, back), *;
    var n, t, e: nat := |pages|, |front| - 1, if more > 0 then more else 1;
    var first := NewAddr(log + pend) + n + 1;
    var next := LinkPages(n, first, e, |log|);
    var recs := FillPages(pages, first, e + |log|);
    w := Thorough.Work(Numbers(1, n), t, |front[t]|, recs, Joined(front[..t]), front[t], front[t] + pend, m, tree,
                       first, true);
    c := Copy(Numbers(first, e), 0, recs, map[], m, tree);
    start, ks, ls := Thorough.Nvm(1, next, recs, {}), [], [];
    mid, end := start, start;
    if ok {
      var spare := Numbers(first + e, |log|);
      SpaceIsReady(front, back, w, start, c, spare, log, pend, first, e);
      now, m', tree', c, ks, mid, ls, end :=
        ThoroughOn(next, recs, m, tree, t + 1, |front[t]|, first, spare, w, start, c.pages);
    }
  }

  lemma {:induction false} AllRecords(front: seq<seq<Rec>>, a: seq<Rec>, end: seq<Rec>, rest: seq<Rec>, log: seq<Rec>,
                                      pend: seq<Rec>)
    requires front != [] && log == Joined(front) && a == Joined(front[..|front| - 1]) && end == front[|front| - 1]
    requires rest == end + pend
    ensures a + end == log && a + rest == log + pend
  {
    Regroup(a, end, pend);
  }

  lemma {:induction false} SpaceIsReady(front: seq<seq<Rec>>, back: seq<seq<Rec>>, w: Thorough.Work, n: Thorough.Nvm,
                                        c: Copy, spare: seq<nat>, log: seq<Rec>, pend: seq<Rec>, first: nat, e: nat)
    requires |front| > 1 && back != [] && log == Joined(front) && pend == Joined(back) && DistinctAddrs(log)
    requires Written(n.recs, w.s, Sheets(front, back)) && n.released == {} && IsChain(n.head, n.next, w.s)
    requires w.t == |front| - 1 && w.count == |front[w.t]| && w.was == n.recs && w.log == Joined(front[..w.t])
    requires w.end == front[w.t] && w.rest == w.end + pend && w.enough && w.newHead == first
    requires forall p :: p in w.tree ==> w.tree[p] in log && Covers(w.tree[p], p)
    requires |w.s| < first && w.s == Numbers(1, |w.s|) && NewAddr(log + pend) <= first
    requires c == Copy(Numbers(first, e), 0, n.recs, map[], w.m, w.tree) && spare == Numbers(first + e, |log|)
    requires IsChain(first, n.next, c.pages) && Single(n.next, spare) && AllEmpty(n.recs, Numbers(first, e + |log|))
    ensures w.t < |w.s| && w.log + w.end == log
    ensures MayCompact(w, n, w.m, w.tree, w.s[w.t], w.newHead, c.pages, spare)
  {
    AllRecords(front, w.log, w.end, w.rest, log, pend);
    StockIsBlank(w, n, c, first, e, |log|, log + pend);
    WorkIsReady(front, back, w, n, c.pages, spare, log, pend);
  }

  /** The new pages are empty, and no record lies on one of them. */
  lemma StockIsBlank(w: Thorough.Work, n: Thorough.Nvm, c: Copy, first: nat, e: nat, k: nat, all: seq<Rec>)
    requires |w.s| < first && w.s == Numbers(1, |w.s|) && NewAddr(all) <= first && w.log + w.rest == all
    requires Single(n.next, Numbers(first + e, k)) && AllEmpty(n.recs, Numbers(first, e + k)) && n.released == {}
    requires c.pages == Numbers(first, e)
    ensures NewPages(c.pages, all) && AllEmpty(n.recs, c.pages) && Separate(w.s, c.pages)
    ensures Thorough.AllBlank(Numbers(first + e, k), w, n, c)
  {
    EmptyParts(n.recs, first, e, k);
    NumbersAreNew(all, first, e);
    NumbersAreNew(all, first + e, k);
    SparesAreBlank(w, n, c, Numbers(first + e, k));
  }

  /** What a thorough collection leaves. */
  ghost predicate ThoroughDone(w: Thorough.Work, c: Copy, start: Thorough.Nvm, ks: seq<Thorough.Snap>,
                               mid: Thorough.Nvm, ls: seq<Thorough.Snap>, end: Thorough.Nvm, now: seq<Rec>, m: Marks,
                               tree: map<nat, Rec>) {
    forall x {:trigger Inside(TheTrace, x)} :: Inside(TheTrace, x) ==>
      && Copying(c, w.log, |w.log|, w.m, w.tree) && NewPages(c.pages, w.log + w.rest)
      && ThoroughTraces(w, c, start, ks, mid, ls, end)
      && now == Thorough.NewLog(w, c) && m == c.m && tree == c.tree
  }

  /** The collection itself, and what is read from the log afterwards. */
  method ThoroughOn(next: map<nat, nat>, recs: map<nat, seq<Rec>>, m: Marks, tree: map<nat, Rec>, tail: nat,
                    count: nat, newHead: nat, spare: seq<nat>, ghost w: Thorough.Work, ghost start: Thorough.Nvm,
                    ghost pages: seq<nat>)
    returns (now: seq<Rec>, m': Marks, tree': map<nat, Rec>, ghost c: Copy, ghost ks: seq<Thorough.Snap>,
             ghost mid: Thorough.Nvm, ghost ls: seq<Thorough.Snap>, ghost end: Thorough.Nvm)
    requires start == Thorough.Nvm(1, next, recs, {}) && w.s != [] && w.s[0] == 1 != tail && count == w.count
    requires MayCompact(w, start, m, tree, tail, newHead, pages, spare) && w.enough
    ensures ThoroughDone(w, c, start, ks, mid, ls, end, now, m', tree')
  {
    assert Inside(TheLoop, 0);
    var space := new Thorough.InodeLog.Of(1, next, recs, m, tree);
    var ok;
    ok, c := space.ThoroughGc(tail, newHead, spare, w, pages);
    ks, ls, end := space.before, space.after, space.Nvmm();
    mid := Thorough.Latest(start, ks);
    ghost var k := ls[|ls| - 1];
    Thorough.TraceAt(mid, ls, tail, count, Thorough.NewLog(w, c), |ls| - 1);
    now := ReadLog(space.head, space.next, space.recs, tail, count, k.chain, k.t);
    m', tree' := space.marks, space.tree;
  }
}
