/**
 The three transactions of namei.c: a new inode, a link or unlink, and a rename. Each of them saves
 the words that it is going to store, and so all of its stores take place or none does.
 */
module Transactions {
  import opened Journal

  // ---------------------------------------------------------------------------------------
  // Words
  // ---------------------------------------------------------------------------------------

  /** Where log_tail and valid are in an inode, and the inode number in a directory record. */
  const LOG_TAIL: nat := 80
  const VALID: nat := 2
  const INO: nat := 12

  /** One store to a word of `size` bytes. */
  datatype Store = Store(w: nat, size: nat, v: nat)

  function Limit(size: nat): nat {
    match size
    case 1 => 0x100
    case 2 => 0x1_0000
    case 4 => 0x1_0000_0000
    case _ => 0x1_0000_0000_0000_0000
  }

  /** The word is there, its value has its size, and no open transaction has named it: the caller
      holds the lock of the inode. */
  ghost predicate Steady(d: Durable, w: nat, size: nat) {
    && w in d.mem && w < TAG && d.mem[w] < Limit(size) && size in {1, 2, 4, 8}
    && forall o :: 0 <= o < |d.rings| ==> !Logged(d.rings[o], w)
  }

  const BLANK := Record([0, 0, 0, 0], [0, 0, 0, 0])

  /** Place `i` of a record saves the word. */
  function Save(e: Record, i: nat, mem: Memory, w: nat, size: nat): Record
    requires Formed(e) && i < 4 && w in mem
  {
    Record(e.addrs[i := size * TAG + w], e.values[i := mem[w]])
  }

  lemma TagParts(w: nat, size: nat)
    requires w < TAG
    ensures (size * TAG + w) / TAG == size && (size * TAG + w) % TAG == w
  {
  }

  /** What a record restores once a word has been saved at a blank place. */
  lemma SavedPlace(d: Durable, c: nat, e: Record, i: nat, w: nat, size: nat)
    requires Saves(d, c, e) && i < 4 && e.addrs[i] == 0 && Steady(d, w, size)
    ensures Saves(d, c, Save(e, i, d.mem, w, size))
    ensures forall x :: Names(Save(e, i, d.mem, w, size), x) <==> x == w || Names(e, x)
  {
    var f := Save(e, i, d.mem, w, size);
    TagParts(w, size);
    assert Restores(f, i) && Where(f, i) == w && Value(f, i) == d.mem[w];
    assert !Restores(e, i);
    assert forall k :: 0 <= k < 4 && k != i ==> (Restores(f, k) <==> Restores(e, k)) && Where(f, k) == Where(e, k);
    forall x
      ensures Names(f, x) <==> x == w || Names(e, x)
    {
      if Names(e, x) {
        var k :| 0 <= k < 4 && Restores(e, k) && Where(e, k) == x;
        assert Restores(f, k) && Where(f, k) == x;
      }
    }
  }

  lemma BlankSaves(d: Durable, c: nat)
    ensures Saves(d, c, BLANK) && forall x :: !Names(BLANK, x)
  {
    assert forall i :: 0 <= i < 4 ==> !Restores(BLANK, i);
  }

  // ---------------------------------------------------------------------------------------
  // All or nothing
  // ---------------------------------------------------------------------------------------

  lemma {:induction false} RunPrefix(m: Machine, steps: seq<Step>, i: nat)
    requires CanRun(m, steps) && i <= |steps|
    ensures CanRun(m, steps[..i])
    decreases |steps|
  {
    if i > 0 {
      RunPrefix(After(m, steps[0]), steps[1..], i - 1);
      assert steps[..i][1..] == steps[1..][..i - 1];
    }
  }

  lemma {:induction false} SpecStays(m: Machine, steps: seq<Step>)
    requires CanRun(m, steps) && forall i :: 0 <= i < |steps| ==> !steps[i].Commit?
    ensures Run(m, steps).spec == m.spec
    decreases |steps|
  {
    if steps != [] {
      SpecStays(After(m, steps[0]), steps[1..]);
    }
  }

  /** `steps` lead to the memory in which all of `news` are stored. After a crash at any of them but
      the last, a mount finds the memory before; after the last one, that memory. */
  ghost predicate AllOrNothing(m: Machine, steps: seq<Step>, news: Memory) {
    && CanRun(m, steps) && Run(m, steps).spec == m.spec + news && Good(Run(m, steps))
    && forall i :: 0 <= i < |steps| ==>
      CanRun(m, steps[..i]) && Good(Run(m, steps[..i])) && Run(m, steps[..i]).spec == m.spec
  }

  lemma LastCommits(m: Machine, steps: seq<Step>, news: Memory)
    requires Good(m) && CanRun(m, steps) && Run(m, steps).spec == m.spec + news
    requires forall i :: 0 <= i < |steps| - 1 ==> !steps[i].Commit?
    ensures AllOrNothing(m, steps, news)
  {
    EveryRunIsRecoverable(m, steps);
    forall i | 0 <= i < |steps|
      ensures CanRun(m, steps[..i]) && Good(Run(m, steps[..i])) && Run(m, steps[..i]).spec == m.spec
    {
      RunPrefix(m, steps, i);
      EveryRunIsRecoverable(m, steps[..i]);
      SpecStays(m, steps[..i]);
    }
  }

  /** A crash at any moment of a transaction, and a mount. */
  lemma MountSeesAllOrNothing(m: Machine, steps: seq<Step>, news: Memory, i: nat)
    requires AllOrNothing(m, steps, news) && i <= |steps|
    ensures CanRun(m, steps[..i])
    ensures var d := Run(m, steps[..i]).d;
            AllLegible(d) && Recovered(d, |d.rings|, true).mem == if i < |steps| then m.spec else m.spec + news
  {
    assert steps[..|steps|] == steps;
    var n := Run(m, steps[..i]);
    MountArrives(n.d, n.spec);
  }

  // ---------------------------------------------------------------------------------------
  // Running a transaction
  // ---------------------------------------------------------------------------------------

  function NewsOf(stores: seq<Store>): Memory {
    if stores == [] then map[] else NewsOf(stores[..|stores| - 1])[stores[|stores| - 1].w := stores[|stores| - 1].v]
  }

  lemma NewsStep(mem: Memory, stores: seq<Store>, i: nat)
    requires i < |stores|
    ensures (mem + NewsOf(stores[..i]))[stores[i].w := stores[i].v] == mem + NewsOf(stores[..i + 1])
  {
    assert stores[..i + 1][..i] == stores[..i];
  }

  ghost predicate Differ(stores: seq<Store>) {
    forall i, j :: 0 <= i < j < |stores| ==> stores[i].w != stores[j].w
  }

  lemma {:induction false} NewsAt(stores: seq<Store>)
    requires Differ(stores)
    ensures forall i :: 0 <= i < |stores| ==>
              stores[i].w in NewsOf(stores) && NewsOf(stores)[stores[i].w] == stores[i].v
    ensures forall w :: w in NewsOf(stores) <==> exists i :: 0 <= i < |stores| && stores[i].w == w
  {
    if stores != [] {
      var k := |stores| - 1;
      var p := stores[..k];
      NewsAt(p);
      forall w | w in NewsOf(stores)
        ensures exists i :: 0 <= i < |stores| && stores[i].w == w
      {
        if w in NewsOf(p) {
          var i :| 0 <= i < k && p[i].w == w;
          assert stores[i].w == w;
        } else {
          assert stores[k].w == w;
        }
      }
    }
  }

  /** Every word that is stored has been saved, and no other. */
  ghost predicate Agree(e1: Record, e2: Record, entries: nat, stores: seq<Store>) {
    forall w :: (exists i :: 0 <= i < |stores| && stores[i].w == w) <==> Names(e1, w) || (entries == 2 && Names(e2, w))
  }

  /** The journal is ready for a transaction of CPU `c`. */
  ghost predicate Ready(j: LiteJournal, c: nat, m: Machine)
    reads j
  {
    c < |j.rings| && j.rings[c].head != 0 && Idle(j.rings[c]) && m.d == j.Now() && Good(m)
  }

  /** The transaction of CPU `c` is open since `m`, and `steps` have led to the present state. */
  ghost predicate Open(j: LiteJournal, c: nat, m: Machine, news: Memory, steps: seq<Step>)
    reads j
  {
    && c < |j.rings| && CanRun(m, steps) && Run(m, steps) == m.(d := j.Now(), open := m.open[c := news])
    && forall i :: 0 <= i < |steps| ==> !steps[i].Commit?
  }

  /** One store of the transaction gets to NVMM. */
  method StoreOne(j: LiteJournal, c: nat, st: Store, ghost m: Machine, ghost news: Memory, ghost was: seq<Step>)
    returns (ghost steps: seq<Step>)
    requires Open(j, c, m, news, was) && st.w in news && news[st.w] == st.v
    modifies j`mem
    ensures Open(j, c, m, news, steps) && j.mem == old(j.mem)[st.w := st.v]
  {
    ghost var n;
    n, steps := OneStep(m, was, Run(m, was), Poke(c, st.w));
    j.mem := j.mem[st.w := st.v];
    assert n == m.(d := j.Now(), open := m.open[c := news]);
  }

  method StoreAll(j: LiteJournal, c: nat, stores: seq<Store>, ghost m: Machine, ghost news: Memory,
                  ghost was: seq<Step>)
    returns (ghost steps: seq<Step>)
    requires Open(j, c, m, news, was)
    requires forall i :: 0 <= i < |stores| ==> stores[i].w in news && news[stores[i].w] == stores[i].v
    modifies j`mem
    ensures Open(j, c, m, news, steps) && j.mem == old(j.mem) + NewsOf(stores)
  {
    steps := was;
    for i := 0 to |stores|
      invariant Open(j, c, m, news, steps) && j.mem == old(j.mem) + NewsOf(stores[..i])
    {
      NewsStep(old(j.mem), stores, i);
      steps := StoreOne(j, c, stores[i], m, news, steps);
    }
    assert stores[..|stores|] == stores;
  }

  /** The head moves. */
  method Finish(j: LiteJournal, c: nat, tail: nat, ghost m: Machine, ghost news: Memory, ghost was: seq<Step>)
    returns (ghost steps: seq<Step>)
    requires Good(m) && Open(j, c, m, news, was) && j.rings[c].tail == tail
    requires forall w :: w in news ==> w in j.mem && j.mem[w] == news[w]
    modifies j`rings
    ensures AllOrNothing(m, steps, news) && Run(m, steps).d == j.Now() && c < |j.rings| && Idle(j.rings[c])
  {
    ghost var n := Run(m, was);
    EveryRunIsRecoverable(m, was);
    ghost var l;
    l, steps := OneStep(m, was, n, Commit(c));
    j.CommitLiteTransaction(c, tail, n);
    LastCommits(m, steps, news);
  }

  /** Publishes the records, makes the stores and commits. */
  method Transact(j: LiteJournal, c: nat, e1: Record, e2: Record, entries: nat, stores: seq<Store>, ghost m: Machine)
    returns (ghost steps: seq<Step>)
    requires Ready(j, c, m) && Differ(stores) && Agree(e1, e2, entries, stores)
    requires Saves(j.Now(), c, e1) && (entries == 2 ==> Saves(j.Now(), c, e2))
    modifies j
    ensures AllOrNothing(m, steps, NewsOf(stores)) && Run(m, steps).d == j.Now()
    ensures j.mem == old(j.mem) + NewsOf(stores) && c < |j.rings| && Idle(j.rings[c])
  {
    ghost var news := NewsOf(stores);
    NewsAt(stores);
    var tail;
    tail, steps := j.CreateLiteTransaction(c, e1, e2, entries, m, news);
    steps := StoreAll(j, c, stores, m, news, steps);
    steps := Finish(j, c, tail, m, news, steps);
  }

  // ---------------------------------------------------------------------------------------
  // Building the records
  // ---------------------------------------------------------------------------------------

  ghost predicate Stored(stores: seq<Store>, w: nat) {
    exists i :: 0 <= i < |stores| && stores[i].w == w
  }

  /** The first `k` places of `e` save the words of `stores`. */
  ghost predicate SavedFor(d: Durable, c: nat, e: Record, k: nat, stores: seq<Store>) {
    && Saves(d, c, e) && (forall i :: k <= i < 4 ==> e.addrs[i] == 0)
    && forall w :: Names(e, w) <==> Stored(stores, w)
  }

  /** All words that are going to be stored are steady. */
  ghost predicate AllSteady(d: Durable, stores: seq<Store>) {
    forall i :: 0 <= i < |stores| ==> Steady(d, stores[i].w, stores[i].size)
  }

  lemma NothingSaved(d: Durable, c: nat)
    ensures SavedFor(d, c, BLANK, 0, [])
  {
    BlankSaves(d, c);
  }

  lemma StoredMore(stores: seq<Store>, st: Store, w: nat)
    ensures Stored(stores + [st], w) <==> Stored(stores, w) || w == st.w
  {
    var all := stores + [st];
    assert all[|stores|] == st;
    if Stored(stores, w) {
      var i :| 0 <= i < |stores| && stores[i].w == w;
      assert all[i].w == w;
    }
  }

  lemma OneMoreSaved(d: Durable, c: nat, e: Record, k: nat, stores: seq<Store>, st: Store)
    requires SavedFor(d, c, e, k, stores) && k < 4 && Steady(d, st.w, st.size)
    ensures SavedFor(d, c, Save(e, k, d.mem, st.w, st.size), k + 1, stores + [st])
  {
    SavedPlace(d, c, e, k, st.w, st.size);
    forall w
      ensures Stored(stores + [st], w) <==> Stored(stores, w) || w == st.w
    {
      StoredMore(stores, st, w);
    }
  }

  /** Two records agree with the stores of both. */
  lemma BothAgree(d: Durable, c: nat, e1: Record, k1: nat, a: seq<Store>, e2: Record, k2: nat, b: seq<Store>)
    requires SavedFor(d, c, e1, k1, a) && SavedFor(d, c, e2, k2, b)
    ensures Agree(e1, e2, 2, a + b)
  {
    forall w
      ensures Stored(a + b, w) <==> Stored(a, w) || Stored(b, w)
    {
      if Stored(a, w) {
        var i :| 0 <= i < |a| && a[i].w == w;
        assert (a + b)[i].w == w;
      }
      if Stored(b, w) {
        var i :| 0 <= i < |b| && b[i].w == w;
        assert (a + b)[|a| + i].w == w;
      }
      if Stored(a + b, w) {
        var i :| 0 <= i < |a + b| && (a + b)[i].w == w;
        assert i < |a| ==> a[i].w == w;
        assert i >= |a| ==> b[i - |a|].w == w;
      }
    }
    assert forall w :: (exists i :: 0 <= i < |a + b| && (a + b)[i].w == w) <==> Stored(a + b, w);
  }

  lemma OneAgrees(d: Durable, c: nat, e1: Record, k: nat, stores: seq<Store>, e2: Record)
    requires SavedFor(d, c, e1, k, stores)
    ensures Agree(e1, e2, 1, stores)
  {
    assert forall w :: (exists i :: 0 <= i < |stores| && stores[i].w == w) <==> Stored(stores, w);
  }

  // ---------------------------------------------------------------------------------------
  // What the words hold afterwards
  // ---------------------------------------------------------------------------------------

  /** From `was` to `now` nothing has changed outside the words `ws`. */
  ghost predicate OnlyAt(was: Memory, now: Memory, ws: set<nat>) {
    && now.Keys == was.Keys + ws
    && forall w :: w in was && w !in ws ==> now[w] == was[w]
  }

  /** Word `w` holds `v`. */
  ghost predicate Reads(mem: Memory, w: nat, v: nat) {
    w in mem && mem[w] == v
  }

  ghost function Words(stores: seq<Store>): set<nat> {
    set i | 0 <= i < |stores| :: stores[i].w
  }

  /** Each store is there, and nothing else has changed. */
  lemma NewsShow(was: Memory, stores: seq<Store>)
    requires Differ(stores)
    ensures OnlyAt(was, was + NewsOf(stores), Words(stores))
    ensures forall st :: st in stores ==> Reads(was + NewsOf(stores), st.w, st.v)
  {
    NewsAt(stores);
  }

  // ---------------------------------------------------------------------------------------
  // A new inode
  // ---------------------------------------------------------------------------------------

  function NewInodeStores(pi: nat, pidir: nat, pidirTail: nat): seq<Store> {
    [Store(pidir + LOG_TAIL, 8, pidirTail), Store(pi + VALID, 1, 1)]
  }

  method SaveForNewInode(mem: Memory, pi: nat, pidir: nat, pidirTail: nat, ghost d: Durable, ghost c: nat)
    returns (entry: Record)
    requires d.mem == mem && AllSteady(d, NewInodeStores(pi, pidir, pidirTail))
    ensures Saves(d, c, entry) && Agree(entry, BLANK, 1, NewInodeStores(pi, pidir, pidirTail))
  {
    ghost var all := NewInodeStores(pi, pidir, pidirTail);
    NothingSaved(d, c);
    OneMoreSaved(d, c, BLANK, 0, [], all[0]);
    entry := Save(BLANK, 0, mem, pidir + LOG_TAIL, 8);
    OneMoreSaved(d, c, entry, 1, [] + [all[0]], all[1]);
    entry := Save(entry, 1, mem, pi + VALID, 1);
    assert [] + [all[0]] + [all[1]] == all;
    OneAgrees(d, c, entry, 2, all, BLANK);
  }

  /** The directory's tail has moved and the inode is valid, and that is all. */
  ghost predicate NewInodeShows(was: Memory, now: Memory, pi: nat, pidir: nat, pidirTail: nat) {
    && Reads(now, pidir + LOG_TAIL, pidirTail) && Reads(now, pi + VALID, 1)
    && OnlyAt(was, now, {pidir + LOG_TAIL, pi + VALID})
  }

  lemma NewInodeNews(was: Memory, pi: nat, pidir: nat, pidirTail: nat)
    requires Differ(NewInodeStores(pi, pidir, pidirTail))
    ensures NewInodeShows(was, was + NewsOf(NewInodeStores(pi, pidir, pidirTail)), pi, pidir, pidirTail)
  {
    var all := NewInodeStores(pi, pidir, pidirTail);
    NewsShow(was, all);
    assert all[0] == Store(pidir + LOG_TAIL, 8, pidirTail) && all[1] == Store(pi + VALID, 1, 1);
    assert Words(all) == {pidir + LOG_TAIL, pi + VALID};
  }

  /** nova_lite_transaction_for_new_inode: the directory's tail moves over the record of the name, and
      the inode becomes valid. */
  method ForNewInode(j: LiteJournal, c: nat, pi: nat, pidir: nat, pidirTail: nat, ghost m: Machine)
    returns (ghost steps: seq<Step>)
    requires Ready(j, c, m) && Differ(NewInodeStores(pi, pidir, pidirTail))
    requires AllSteady(j.Now(), NewInodeStores(pi, pidir, pidirTail))
    modifies j
    ensures AllOrNothing(m, steps, NewsOf(NewInodeStores(pi, pidir, pidirTail))) && Run(m, steps).d == j.Now()
    ensures NewInodeShows(m.spec, Run(m, steps).spec, pi, pidir, pidirTail)
    ensures NewInodeShows(old(j.mem), j.mem, pi, pidir, pidirTail)
  {
    NewInodeNews(m.spec, pi, pidir, pidirTail);
    NewInodeNews(j.mem, pi, pidir, pidirTail);
    var entry := SaveForNewInode(j.mem, pi, pidir, pidirTail, j.Now(), c);
    var stores := [Store(pidir + LOG_TAIL, 8, pidirTail)];
    stores := stores + [Store(pi + VALID, 1, 1)];
    assert stores == NewInodeStores(pi, pidir, pidirTail);
    steps := Transact(j, c, entry, BLANK, 1, stores, m);
  }

  // ---------------------------------------------------------------------------------------
  // Link and unlink
  // ---------------------------------------------------------------------------------------

  function LinkStores(pi: nat, pidir: nat, piTail: nat, pidirTail: nat, invalidate: bool): seq<Store> {
    [Store(pi + LOG_TAIL, 8, piTail), Store(pidir + LOG_TAIL, 8, pidirTail)]
    + (if invalidate then [Store(pi + VALID, 1, 0)] else [])
  }

  method SaveForLink(mem: Memory, pi: nat, pidir: nat, piTail: nat, pidirTail: nat, invalidate: bool,
                     ghost d: Durable, ghost c: nat)
    returns (entry: Record)
    requires d.mem == mem && AllSteady(d, LinkStores(pi, pidir, piTail, pidirTail, invalidate))
    ensures Saves(d, c, entry) && Agree(entry, BLANK, 1, LinkStores(pi, pidir, piTail, pidirTail, invalidate))
  {
    ghost var all := LinkStores(pi, pidir, piTail, pidirTail, invalidate);
    NothingSaved(d, c);
    OneMoreSaved(d, c, BLANK, 0, [], all[0]);
    entry := Save(BLANK, 0, mem, pi + LOG_TAIL, 8);
    OneMoreSaved(d, c, entry, 1, [] + [all[0]], all[1]);
    entry := Save(entry, 1, mem, pidir + LOG_TAIL, 8);
    ghost var done, k := [] + [all[0]] + [all[1]], 2;
    if invalidate {
      OneMoreSaved(d, c, entry, 2, done, all[2]);
      entry := Save(entry, 2, mem, pi + VALID, 1);
      done, k := done + [all[2]], 3;
    }
    assert done == all;
    OneAgrees(d, c, entry, k, done, BLANK);
  }

  /** Both tails have moved, the inode is invalid if it was to be, and that is all. */
  ghost predicate LinkShows(was: Memory, now: Memory, pi: nat, pidir: nat, piTail: nat, pidirTail: nat,
                            invalidate: bool) {
    && Reads(now, pi + LOG_TAIL, piTail) && Reads(now, pidir + LOG_TAIL, pidirTail)
    && (invalidate ==> Reads(now, pi + VALID, 0))
    && OnlyAt(was, now, {pi + LOG_TAIL, pidir + LOG_TAIL} + if invalidate then {pi + VALID} else {})
  }

  lemma LinkNews(was: Memory, pi: nat, pidir: nat, piTail: nat, pidirTail: nat, invalidate: bool)
    requires Differ(LinkStores(pi, pidir, piTail, pidirTail, invalidate))
    ensures LinkShows(was, was + NewsOf(LinkStores(pi, pidir, piTail, pidirTail, invalidate)), pi, pidir, piTail,
                      pidirTail, invalidate)
  {
    var all := LinkStores(pi, pidir, piTail, pidirTail, invalidate);
    NewsShow(was, all);
    assert all[0] == Store(pi + LOG_TAIL, 8, piTail) && all[1] == Store(pidir + LOG_TAIL, 8, pidirTail);
    assert invalidate ==> all[2] == Store(pi + VALID, 1, 0);
    assert Words(all) == {pi + LOG_TAIL, pidir + LOG_TAIL} + if invalidate then {pi + VALID} else {};
  }

  /** nova_lite_transaction_for_time_and_link: the tails of inode and directory move, and an inode that
      has lost its last name becomes invalid. */
  method ForTimeAndLink(j: LiteJournal, c: nat, pi: nat, pidir: nat, piTail: nat, pidirTail: nat, invalidate: bool,
                        ghost m: Machine)
    returns (ghost steps: seq<Step>)
    requires Ready(j, c, m) && Differ(LinkStores(pi, pidir, piTail, pidirTail, invalidate))
    requires AllSteady(j.Now(), LinkStores(pi, pidir, piTail, pidirTail, invalidate))
    modifies j
    ensures AllOrNothing(m, steps, NewsOf(LinkStores(pi, pidir, piTail, pidirTail, invalidate)))
    ensures Run(m, steps).d == j.Now()
    ensures LinkShows(m.spec, Run(m, steps).spec, pi, pidir, piTail, pidirTail, invalidate)
    ensures LinkShows(old(j.mem), j.mem, pi, pidir, piTail, pidirTail, invalidate)
  {
    LinkNews(m.spec, pi, pidir, piTail, pidirTail, invalidate);
    LinkNews(j.mem, pi, pidir, piTail, pidirTail, invalidate);
    var entry := SaveForLink(j.mem, pi, pidir, piTail, pidirTail, invalidate, j.Now(), c);
    var stores := [Store(pi + LOG_TAIL, 8, piTail)];
    stores := stores + [Store(pidir + LOG_TAIL, 8, pidirTail)];
    if invalidate {
      stores := stores + [Store(pi + VALID, 1, 0)];
    }
    assert stores == LinkStores(pi, pidir, piTail, pidirTail, invalidate);
    steps := Transact(j, c, entry, BLANK, 1, stores, m);
  }

  // ---------------------------------------------------------------------------------------
  // Rename
  // ---------------------------------------------------------------------------------------

  /** A rename of inode `oldPi` from directory `oldPidir` to `newPidir`. With `changeParent` a directory
      moves, and its ".." record is at `father`; with `over` the new name belonged to inode
      `newPi`, which is left with `links` links. */
  datatype Renaming = Renaming(oldPi: nat, oldPidir: nat, newPidir: nat, father: nat, changeParent: bool, over: bool,
                               newPi: nat, links: nat, oldPiTail: nat, oldTail: nat, newTail: nat, newPiTail: nat,
                               newIno: nat)

  /** The stores that the first record has to cover. */
  function FirstStores(x: Renaming): seq<Store> {
    [Store(x.oldPi + LOG_TAIL, 8, x.oldPiTail), Store(x.oldPidir + LOG_TAIL, 8, x.oldTail)]
    + (if x.oldPidir != x.newPidir then [Store(x.newPidir + LOG_TAIL, 8, x.newTail)] else [])
    + (if x.changeParent then [Store(x.father + INO, 8, x.newIno)] else [])
  }

  /** And those of the second one, if a name is replaced. */
  function SecondStores(x: Renaming): seq<Store> {
    [Store(x.newPi + LOG_TAIL, 8, x.newPiTail)] + (if x.links == 0 then [Store(x.newPi + VALID, 1, 0)] else [])
  }

  function RenameStores(x: Renaming): seq<Store> {
    FirstStores(x) + (if x.over then SecondStores(x) else [])
  }

  method SaveFirst(mem: Memory, x: Renaming, ghost d: Durable, ghost c: nat) returns (entry: Record, ghost k: nat)
    requires d.mem == mem && AllSteady(d, FirstStores(x)) && (x.changeParent ==> x.oldPidir != x.newPidir)
    ensures SavedFor(d, c, entry, k, FirstStores(x))
  {
    ghost var all := FirstStores(x);
    NothingSaved(d, c);
    OneMoreSaved(d, c, BLANK, 0, [], all[0]);
    entry := Save(BLANK, 0, mem, x.oldPi + LOG_TAIL, 8);
    OneMoreSaved(d, c, entry, 1, [] + [all[0]], all[1]);
    entry := Save(entry, 1, mem, x.oldPidir + LOG_TAIL, 8);
    ghost var done := [] + [all[0]] + [all[1]];
    k := 2;
    if x.oldPidir != x.newPidir {
      OneMoreSaved(d, c, entry, 2, done, all[2]);
      entry := Save(entry, 2, mem, x.newPidir + LOG_TAIL, 8);
      done, k := done + [all[2]], 3;
      if x.changeParent {
        OneMoreSaved(d, c, entry, 3, done, all[3]);
        entry := Save(entry, 3, mem, x.father + INO, 8);
        done, k := done + [all[3]], 4;
      }
    }
    assert done == all;
  }

  method SaveSecond(mem: Memory, x: Renaming, ghost d: Durable, ghost c: nat) returns (entry: Record, ghost k: nat)
    requires d.mem == mem && AllSteady(d, SecondStores(x))
    ensures SavedFor(d, c, entry, k, SecondStores(x))
  {
    ghost var all := SecondStores(x);
    NothingSaved(d, c);
    OneMoreSaved(d, c, BLANK, 0, [], all[0]);
    entry := Save(BLANK, 0, mem, x.newPi + LOG_TAIL, 8);
    ghost var done := [] + [all[0]];
    k := 1;
    if x.links == 0 {
      OneMoreSaved(d, c, entry, 1, done, all[1]);
      entry := Save(entry, 1, mem, x.newPi + VALID, 1);
      done, k := done + [all[1]], 2;
    }
    assert done == all;
  }

  lemma SteadyParts(d: Durable, a: seq<Store>, b: seq<Store>)
    requires AllSteady(d, a + b)
    ensures AllSteady(d, a) && AllSteady(d, b)
  {
    assert forall i :: 0 <= i < |a| ==> (a + b)[i] == a[i];
    assert forall i :: 0 <= i < |b| ==> (a + b)[|a| + i] == b[i];
  }

  /** The records of a rename: up to six words in one or two of them. */
  method SaveForRename(mem: Memory, x: Renaming, ghost d: Durable, ghost c: nat)
    returns (entry: Record, entry1: Record, entries: nat)
    requires d.mem == mem && AllSteady(d, RenameStores(x)) && (x.changeParent ==> x.oldPidir != x.newPidir)
    ensures entries == (if x.over then 2 else 1) && Saves(d, c, entry) && (entries == 2 ==> Saves(d, c, entry1))
    ensures Agree(entry, entry1, entries, RenameStores(x))
  {
    ghost var k, k1;
    SteadyParts(d, FirstStores(x), if x.over then SecondStores(x) else []);
    entry, k := SaveFirst(mem, x, d, c);
    entries, entry1 := 1, BLANK;
    if x.over {
      entries := 2;
      entry1, k1 := SaveSecond(mem, x, d, c);
      BothAgree(d, c, entry, k, FirstStores(x), entry1, k1, SecondStores(x));
    } else {
      assert RenameStores(x) == FirstStores(x);
      OneAgrees(d, c, entry, k, FirstStores(x), BLANK);
    }
  }

  /** The stores in the order in which they are made. */
  method StoresOfRename(x: Renaming) returns (stores: seq<Store>)
    ensures stores == RenameStores(x)
  {
    stores := [Store(x.oldPi + LOG_TAIL, 8, x.oldPiTail)];
    stores := stores + [Store(x.oldPidir + LOG_TAIL, 8, x.oldTail)];
    if x.oldPidir != x.newPidir {
      stores := stores + [Store(x.newPidir + LOG_TAIL, 8, x.newTail)];
    }
    if x.changeParent {
      stores := stores + [Store(x.father + INO, 8, x.newIno)];
    }
    assert stores == FirstStores(x);
    if x.over {
      var more := [Store(x.newPi + LOG_TAIL, 8, x.newPiTail)];
      if x.links == 0 {
        more := more + [Store(x.newPi + VALID, 1, 0)];
      }
      assert more == SecondStores(x);
      stores := stores + more;
    }
  }

  /** The words that a rename may store to. */
  ghost function RenameWords(x: Renaming): set<nat> {
    {x.oldPi + LOG_TAIL, x.oldPidir + LOG_TAIL} + (if x.oldPidir != x.newPidir then {x.newPidir + LOG_TAIL} else {})
    + (if x.changeParent then {x.father + INO} else {}) + (if x.over then {x.newPi + LOG_TAIL} else {})
    + (if x.over && x.links == 0 then {x.newPi + VALID} else {})
  }

  /** Every tail is that of its own inode, ".." leads to the new directory, the replaced inode is
      invalid if no link is left, and that is all. */
  ghost predicate RenameShows(was: Memory, now: Memory, x: Renaming) {
    && Reads(now, x.oldPi + LOG_TAIL, x.oldPiTail) && Reads(now, x.oldPidir + LOG_TAIL, x.oldTail)
    && (x.oldPidir != x.newPidir ==> Reads(now, x.newPidir + LOG_TAIL, x.newTail))
    && (x.changeParent ==> Reads(now, x.father + INO, x.newIno))
    && (x.over ==> Reads(now, x.newPi + LOG_TAIL, x.newPiTail))
    && (x.over && x.links == 0 ==> Reads(now, x.newPi + VALID, 0))
    && OnlyAt(was, now, RenameWords(x))
  }

  lemma WordsJoin(a: seq<Store>, b: seq<Store>)
    ensures Words(a + b) == Words(a) + Words(b)
  {
    var t := a + b;
    forall i | 0 <= i < |a|
      ensures a[i].w in Words(t)
    {
      assert t[i] == a[i];
    }
    forall i | 0 <= i < |b|
      ensures b[i].w in Words(t)
    {
      assert t[|a| + i] == b[i];
    }
  }

  lemma WordsOfOne(st: Store)
    ensures Words([st]) == {st.w} && Words([]) == {}
  {
    assert [st][0] == st;
  }

  lemma FourWords(a: Store, b: Store, p: bool, c: Store, q: bool, d: Store)
    ensures Words([a, b] + (if p then [c] else []) + (if q then [d] else [])) ==
            {a.w, b.w} + (if p then {c.w} else {}) + (if q then {d.w} else {})
  {
    var cs, ds := if p then [c] else [], if q then [d] else [];
    WordsOfOne(a);
    WordsOfOne(b);
    WordsOfOne(c);
    WordsOfOne(d);
    WordsJoin([a], [b]);
    assert [a] + [b] == [a, b];
    WordsJoin([a, b], cs);
    WordsJoin([a, b] + cs, ds);
  }

  lemma FirstWordsAre(x: Renaming)
    ensures Words(FirstStores(x)) ==
            {x.oldPi + LOG_TAIL, x.oldPidir + LOG_TAIL}
            + (if x.oldPidir != x.newPidir then {x.newPidir + LOG_TAIL} else {})
            + (if x.changeParent then {x.father + INO} else {})
  {
    FourWords(Store(x.oldPi + LOG_TAIL, 8, x.oldPiTail), Store(x.oldPidir + LOG_TAIL, 8, x.oldTail),
              x.oldPidir != x.newPidir, Store(x.newPidir + LOG_TAIL, 8, x.newTail),
              x.changeParent, Store(x.father + INO, 8, x.newIno));
  }

  lemma RenameWordsAre(x: Renaming)
    ensures Words(RenameStores(x)) == RenameWords(x)
  {
    var e, f := Store(x.newPi + LOG_TAIL, 8, x.newPiTail), Store(x.newPi + VALID, 1, 0);
    FirstWordsAre(x);
    WordsOfOne(e);
    WordsOfOne(f);
    WordsJoin([e], if x.links == 0 then [f] else []);
    WordsJoin(FirstStores(x), if x.over then SecondStores(x) else []);
  }

  lemma RenameStoresHave(x: Renaming)
    ensures var all := RenameStores(x);
            && Store(x.oldPi + LOG_TAIL, 8, x.oldPiTail) in all && Store(x.oldPidir + LOG_TAIL, 8, x.oldTail) in all
            && (x.oldPidir != x.newPidir ==> Store(x.newPidir + LOG_TAIL, 8, x.newTail) in all)
            && (x.changeParent ==> Store(x.father + INO, 8, x.newIno) in all)
            && (x.over ==> Store(x.newPi + LOG_TAIL, 8, x.newPiTail) in all)
            && (x.over && x.links == 0 ==> Store(x.newPi + VALID, 1, 0) in all)
  {
    var all, n := RenameStores(x), |FirstStores(x)|;
    assert all[0].w == x.oldPi + LOG_TAIL && all[1].w == x.oldPidir + LOG_TAIL;
    assert x.oldPidir != x.newPidir ==> all[2] == Store(x.newPidir + LOG_TAIL, 8, x.newTail);
    assert x.changeParent ==> all[n - 1] == Store(x.father + INO, 8, x.newIno);
    assert x.over ==> all[n] == Store(x.newPi + LOG_TAIL, 8, x.newPiTail);
    assert x.over && x.links == 0 ==> all[n + 1] == Store(x.newPi + VALID, 1, 0);
  }

  lemma RenameNews(was: Memory, x: Renaming)
    requires Differ(RenameStores(x))
    ensures RenameShows(was, was + NewsOf(RenameStores(x)), x)
  {
    NewsShow(was, RenameStores(x));
    RenameWordsAre(x);
    RenameStoresHave(x);
  }

  /** The end of nova_rename: within a directory or between two, of a file or a directory, over a
      name that exists or not. */
  method ForRename(j: LiteJournal, c: nat, x: Renaming, ghost m: Machine) returns (ghost steps: seq<Step>)
    requires Ready(j, c, m) && Differ(RenameStores(x)) && AllSteady(j.Now(), RenameStores(x))
    requires x.changeParent ==> x.oldPidir != x.newPidir
    modifies j
    ensures AllOrNothing(m, steps, NewsOf(RenameStores(x))) && Run(m, steps).d == j.Now()
    ensures RenameShows(m.spec, Run(m, steps).spec, x) && RenameShows(old(j.mem), j.mem, x)
  {
    RenameNews(m.spec, x);
    RenameNews(j.mem, x);
    var entry, entry1, entries := SaveForRename(j.mem, x, j.Now(), c);
    var stores := StoresOfRename(x);
    steps := Transact(j, c, entry, entry1, entries, stores, m);
  }
}
