/**
 The fast collection of inode.c as it changes an inode log in NVMM, one durable store after the
 other. After each store the state that a crash would leave is put on record, and every
 recorded state is shown to be sane.
 */
module LogCollect {
  import opened FileLog
  import opened FileData
  import opened LogChain

  /** What stays the same during a collection: the records, the pages `s` of the log at its
      start, the page `s[t]` that holds the tail with `count` records before it, the marks, the
      new pages `extra` and the pages `was` that the allocator owned. */
  datatype Job = Job(recs: map<nat, seq<Rec>>, s: seq<nat>, t: nat, count: nat, m: Marks, extra: seq<nat>,
                     was: set<nat>)

  /** What it changes. */
  datatype Disk = Disk(head: nat, next: map<nat, nat>, released: set<nat>)

  ghost predicate Proper(j: Job) {
    && AllPresent(j.recs, j.s) && AllPresent(j.recs, j.extra)
    && j.t < |j.s| && j.count <= |j.recs[j.s[j.t]]|
    && DistinctAddrs(LogOn(j.recs, j.s, j.t, j.count))
    && Separate(j.s, j.extra) && NoneIn(j.s, j.was) && NoneIn(j.extra, j.was)
  }

  /** The log before the collection. */
  function LogOf(j: Job): seq<Rec>
    requires AllPresent(j.recs, j.s) && j.t < |j.s| && j.count <= |j.recs[j.s[j.t]]|
  {
    LogOn(j.recs, j.s, j.t, j.count)
  }

  // ---------------------------------------------------------------------------------------
  // Crash images
  // ---------------------------------------------------------------------------------------

  ghost predicate SaneFor(j: Job, k: Image) {
    forall i {:trigger Inside(TheImage, i)} :: Inside(TheImage, i) ==>
      Proper(j) && Sane(k, j.recs, j.s[j.t], j.count, LogOf(j), j.m)
  }

  lemma SaneParts(j: Job, k: Image)
    requires SaneFor(j, k)
    ensures Proper(j) && Sane(k, j.recs, j.s[j.t], j.count, LogOf(j), j.m)
  {
    assert Inside(TheImage, 0);
  }

  ghost function DiskOf(k: Image): Disk {
    Disk(k.head, k.next, k.released)
  }

  ghost function Latest(start: Disk, ks: seq<Image>): Disk {
    if ks == [] then start else DiskOf(ks[|ks| - 1])
  }

  datatype Store = SetHead(page: nat) | SetNext(of: nat, page: nat) | GiveBack(page: nat)

  ghost function After(d: Disk, st: Store): Disk {
    match st
    case SetHead(p) => d.(head := p)
    case SetNext(q, p) => d.(next := d.next[q := p])
    case GiveBack(p) => d.(released := d.released + {p})
  }

  ghost predicate OneStore(a: Disk, b: Disk) {
    exists st :: b == After(a, st)
  }

  /** `ks` leads from `start` store by store, and every state on the way is sane. */
  ghost predicate Trace(j: Job, start: Disk, ks: seq<Image>) {
    ks == [] ||
    var k := |ks| - 1;
    Trace(j, start, ks[..k]) && SaneFor(j, ks[k]) && OneStore(Latest(start, ks[..k]), DiskOf(ks[k]))
  }

  lemma OneMore(j: Job, start: Disk, ks: seq<Image>, k: Image)
    requires Trace(j, start, ks) && SaneFor(j, k) && OneStore(Latest(start, ks), DiskOf(k))
    ensures Trace(j, start, ks + [k]) && Latest(start, ks + [k]) == DiskOf(k)
  {
    assert (ks + [k])[..|ks|] == ks;
  }

  lemma {:induction false} SaneAt(j: Job, start: Disk, ks: seq<Image>, i: nat)
    requires Trace(j, start, ks) && i < |ks|
    ensures SaneFor(j, ks[i])
  {
    if i < |ks| - 1 {
      SaneAt(j, start, ks[..|ks| - 1], i);
    }
  }

  /** Whichever store a crash follows, recovery rebuilds index and size that the log had before;
      and its attributes and links too, if the marks for these were right. */
  lemma EveryCrashReplays(j: Job, start: Disk, ks: seq<Image>, i: nat, v0: View, marks: set<nat>)
    requires Trace(j, start, ks) && i < |ks| && Proper(j)
    requires Fresh(v0) && WellSized(LogOf(j)) && Settled(LogOf(j)) && CountersTell(LogOf(j), j.m)
    requires LastOf(LogOf(j), Resizes) < 0 ==> v0.size == 0
    requires forall x :: 0 <= x < |LogOf(j)| && LogOf(j)[x].e.Write? && LogOf(j)[x].addr in marks
                         ==> EntryInvalid(LogOf(j)[x], j.m)
    ensures IsChain(ks[i].head, ks[i].next, ks[i].chain) && NoneIn(ks[i].chain, ks[i].released)
    ensures ks[i].t < |ks[i].chain| && ks[i].chain[ks[i].t] == j.s[j.t] && AllPresent(j.recs, ks[i].chain)
    ensures var v := Replay(v0, LogOn(j.recs, ks[i].chain, ks[i].t, j.count), marks);
            v.tree == Meaning(LogOf(j)).tree && v.size == Meaning(LogOf(j)).size
    ensures Current(LogOf(j), j.m) ==>
              Replay(v0, LogOn(j.recs, ks[i].chain, ks[i].t, j.count), marks) == Replay(v0, LogOf(j), {})
  {
    SaneAt(j, start, ks, i);
    SaneParts(j, ks[i]);
    SaneImageReplays(v0, ks[i], j.recs, j.s[j.t], j.count, LogOf(j), j.m, marks);
    if Current(LogOf(j), j.m) {
      SaneImageKeepsView(v0, ks[i], j.recs, j.s[j.t], j.count, LogOf(j), j.m, marks);
    }
  }

  /** The image when the pages are `front`, what the scan has not reached, and `more`. */
  ghost function ImageAt(j: Job, d: Disk, c: Scan, more: seq<nat>): Image
    requires c.i <= j.t < |j.s|
  {
    Image(d.head, d.next, d.released, c.front + j.s[c.i..] + more, |c.front| + j.t - c.i, c.drop)
  }

  lemma ImageSane(j: Job, d: Disk, c: Scan, more: seq<nat>)
    requires Proper(j) && c.i <= j.t && AllPresent(j.recs, c.front) && AllPresent(j.recs, more)
    requires Reduced(Flat(j.recs, c.front), Flat(j.recs, j.s[..c.i]), c.drop, j.m)
    requires IsChain(d.head, d.next, c.front + j.s[c.i..] + more) && NoneIn(c.front + j.s[c.i..] + more, d.released)
    ensures SaneFor(j, ImageAt(j, d, c, more))
  {
    ImageOf(j.recs, c.front, j.s, c.i, j.t, j.count, c.drop, j.m, more);
  }

  // ---------------------------------------------------------------------------------------
  // The links during the scan
  // ---------------------------------------------------------------------------------------

  /** Of the pages `s`, exactly those not in `kept` have been given back. */
  ghost predicate Returned(released: set<nat>, was: set<nat>, s: seq<nat>, kept: seq<nat>) {
    forall p :: p in released <==> p in was || (p in s && p !in kept)
  }

  ghost predicate Within(a: seq<nat>, s: seq<nat>) {
    forall i :: 0 <= i < |a| ==> a[i] in s
  }

  /** The chain and the pages given back while the scan stands at `c`. */
  ghost predicate Walk(j: Job, d: Disk, c: Scan, newBlock: nat) {
    && c.i <= |j.s|
    && IsChain(d.head, d.next, c.front + j.s[c.i..]) && IsChain(newBlock, d.next, j.extra)
    && Returned(d.released, j.was, j.s, c.front + j.s[c.i..])
    && Within(c.front, j.s)
  }

  lemma NotReturned(j: Job, released: set<nat>, kept: seq<nat>)
    requires Returned(released, j.was, j.s, kept) && Within(kept, j.s)
    requires NoneIn(j.s, j.was) && NoneIn(j.extra, j.was) && Separate(j.s, j.extra)
    ensures NoneIn(kept, released) && NoneIn(kept + j.extra, released)
  {
    assert forall x :: x in j.s ==> x !in j.was;
    forall i | 0 <= i < |j.extra|
      ensures j.extra[i] !in released
    {
      assert j.extra[i] !in j.s;
    }
  }

  lemma WalkKeep(j: Job, d: Disk, c: Scan, e: Scan, newBlock: nat)
    requires Walk(j, d, c, newBlock) && c.i < |j.s|
    requires e.i == c.i + 1 && e.front == c.front + [j.s[c.i]]
    ensures Walk(j, d, e, newBlock)
  {
    assert e.front + j.s[e.i..] == c.front + j.s[c.i..];
  }

  /** The link of page `c.i`'s predecessor now skips it: `d.next` with this one store. */
  ghost function Skipped(j: Job, d: Disk, c: Scan): Disk
    requires c.front != [] && c.i < |j.s| && j.s[c.i] in d.next
  {
    d.(next := d.next[c.front[|c.front| - 1] := d.next[j.s[c.i]]])
  }

  lemma LastNotNew(j: Job, f: seq<nat>)
    requires Within(f, j.s) && f != [] && Separate(j.s, j.extra)
    ensures f[|f| - 1] !in j.extra
  {
    assert f[|f| - 1] in j.s;
  }

  lemma SkipChain(j: Job, d: Disk, c: Scan, e: Scan, newBlock: nat)
    requires Walk(j, d, c, newBlock) && 0 < c.i < |j.s| && c.front != [] && Separate(j.s, j.extra)
    requires e.i == c.i + 1 && e.front == c.front
    ensures j.s[c.i] in d.next
    ensures var n := Skipped(j, d, c).next;
            IsChain(d.head, n, e.front + j.s[e.i..]) && IsChain(newBlock, n, j.extra)
  {
    var f, r, p := c.front, j.s[e.i..], j.s[c.i];
    assert f + j.s[c.i..] == f + [p] + r by {
      assert j.s[c.i..] == [p] + r;
    }
    Unlink(d.head, d.next, f, p, r);
    var last := f[|f| - 1];
    LastNotNew(j, f);
    OtherChain(newBlock, d.next, j.extra, last, d.next[p]);
  }

  lemma Without(f: seq<nat>, p: nat, r: seq<nat>)
    requires forall i, j :: 0 <= i < j < |f + [p] + r| ==> (f + [p] + r)[i] != (f + [p] + r)[j]
    ensures p !in f + r && forall x :: x in f + [p] + r <==> x in f + r || x == p
  {
    var all, k := f + [p] + r, |f|;
    assert all[k] == p;
    forall i | 0 <= i < |f + r|
      ensures (f + r)[i] != p
    {
      assert (f + r)[i] == all[if i < k then i else i + 1];
    }
  }

  /** Pages kept before and after page `c.i` is given back. */
  lemma SkipReturned(j: Job, d: Disk, c: Scan, e: Scan, newBlock: nat)
    requires Walk(j, d, c, newBlock) && 0 < c.i < |j.s|
    requires NoneIn(j.s, j.was) && NoneIn(j.extra, j.was) && Separate(j.s, j.extra)
    requires e.i == c.i + 1 && e.front == c.front
    ensures Within(e.front + j.s[e.i..], j.s)
    ensures NoneIn(e.front + j.s[e.i..], d.released)
    ensures NoneIn(e.front + j.s[e.i..], d.released + {j.s[c.i]})
    ensures Returned(d.released + {j.s[c.i]}, j.was, j.s, e.front + j.s[e.i..])
  {
    var f, p, r := c.front, j.s[c.i], j.s[e.i..];
    assert f + j.s[c.i..] == f + [p] + r;
    Without(f, p, r);
    NotReturned(j, d.released, f + [p] + r);
    assert forall i :: 0 <= i < |f + r| ==> (f + r)[i] in f + [p] + r;
  }

  // ---------------------------------------------------------------------------------------
  // One step of the scan
  // ---------------------------------------------------------------------------------------

  ghost predicate Collecting(j: Job, d: Disk, c: Scan, newBlock: nat) {
    && c.i <= j.t < |j.s| && AllPresent(j.recs, j.s)
    && forall k {:trigger Inside(TheScan, k)} :: Inside(TheScan, k) ==> CollectingLog(j, d, c, newBlock)
  }

  ghost predicate CollectingLog(j: Job, d: Disk, c: Scan, newBlock: nat) {
    && Proper(j)
    && Scanning(j.recs, j.s, j.t, j.m, c)
    && Walk(j, d, c, newBlock)
  }

  lemma CollectingParts(j: Job, d: Disk, c: Scan, newBlock: nat)
    requires Collecting(j, d, c, newBlock)
    ensures CollectingLog(j, d, c, newBlock)
  {
    assert Inside(TheScan, 0);
  }

  lemma Start(j: Job, d: Disk, newBlock: nat)
    requires Proper(j) && IsChain(d.head, d.next, j.s) && IsChain(newBlock, d.next, j.extra) && d.released == j.was
    ensures Collecting(j, d, Scan(0, [], false, [], {}), newBlock)
  {
    StartScan(j);
    StartWalk(j, d, newBlock);
  }

  lemma StartScan(j: Job)
    requires AllPresent(j.recs, j.s) && j.t < |j.s|
    ensures Scanning(j.recs, j.s, j.t, j.m, Scan(0, [], false, [], {}))
  {
    assert j.s[..0] == [];
  }

  lemma StartWalk(j: Job, d: Disk, newBlock: nat)
    requires IsChain(d.head, d.next, j.s) && IsChain(newBlock, d.next, j.extra) && d.released == j.was
    ensures Walk(j, d, Scan(0, [], false, [], {}), newBlock)
  {
    assert [] + j.s[0..] == j.s;
  }

  /** What the loop can see of the chain at page `c.i`. */
  lemma Seen(j: Job, d: Disk, c: Scan, newBlock: nat)
    requires Collecting(j, d, c, newBlock)
    ensures c.i < j.t ==> j.s[c.i] != j.s[j.t] && j.s[c.i] in d.next && d.next[j.s[c.i]] == j.s[c.i + 1]
    ensures c.i > 0 ==> c.front != [] && j.s[c.i] != j.s[0]
    ensures d.head == j.s[0]
  {
    CollectingParts(j, d, c, newBlock);
    SeenChain(d, c.front, j.s, c.i, j.t);
  }

  lemma SeenChain(d: Disk, f: seq<nat>, s: seq<nat>, i: nat, t: nat)
    requires i <= t < |s| && IsChain(d.head, d.next, f + s[i..])
    requires if i == 0 then f == [] else f != [] && f[0] == s[0]
    ensures i < t ==> s[i] != s[t] && s[i] in d.next && d.next[s[i]] == s[i + 1]
    ensures i > 0 ==> s[i] != s[0]
    ensures d.head == s[0]
  {
    var all, k := f + s[i..], |f|;
    assert all[k] == s[i];
    assert all[k + t - i] == s[t];
    assert i < t ==> all[k + 1] == s[i + 1];
    assert i > 0 ==> all[0] == s[0];
  }

  lemma PrefixDistinct(j: Job, i: nat)
    requires Proper(j) && i <= j.t
    ensures DistinctAddrs(Flat(j.recs, j.s[..i]))
  {
    LogSplit(j.recs, j.s, i, j.t, j.count);
    var a, log := Flat(j.recs, j.s[..i]), LogOf(j);
    assert forall k :: 0 <= k < |a| ==> log[k] == a[k];
  }

  lemma KeepLog(j: Job, d: Disk, c: Scan, e: Scan, dead: bool, newBlock: nat)
    requires CollectingLog(j, d, c, newBlock) && c.i < j.t
    requires dead <==> DeadPage(j.recs[j.s[c.i]], j.m)
    requires dead ==> c.i == 0
    requires e == Step(j.recs, j.s, c, dead)
    ensures CollectingLog(j, d, e, newBlock)
  {
    PrefixDistinct(j, c.i + 1);
    ScanStep(j.recs, j.s, j.t, j.m, c, dead);
    WalkKeep(j, d, c, e, newBlock);
  }

  /** A page that stays linked: no store at all. */
  lemma KeepStep(j: Job, d: Disk, c: Scan, dead: bool, newBlock: nat)
    requires Collecting(j, d, c, newBlock) && c.i < j.t
    requires dead <==> DeadPage(j.recs[j.s[c.i]], j.m)
    requires dead ==> c.i == 0
    ensures Collecting(j, d, Step(j.recs, j.s, c, dead), newBlock)
  {
    CollectingParts(j, d, c, newBlock);
    KeepLog(j, d, c, Step(j.recs, j.s, c, dead), dead, newBlock);
  }

  lemma DropWalk(j: Job, d: Disk, c: Scan, newBlock: nat)
    requires CollectingLog(j, d, c, newBlock) && 0 < c.i < j.t && c.front != [] && DeadPage(j.recs[j.s[c.i]], j.m)
    ensures j.s[c.i] in d.next
    ensures var n, e := Skipped(j, d, c), Step(j.recs, j.s, c, true);
            && Scanning(j.recs, j.s, j.t, j.m, e)
            && Walk(j, n.(released := n.released + {j.s[c.i]}), e, newBlock)
            && NoneIn(e.front + j.s[e.i..], n.released)
            && NoneIn(e.front + j.s[e.i..], n.released + {j.s[c.i]})
  {
    var e := Step(j.recs, j.s, c, true);
    PrefixDistinct(j, c.i + 1);
    ScanStep(j.recs, j.s, j.t, j.m, c, true);
    SkipChain(j, d, c, e, newBlock);
    SkipReturned(j, d, c, e, newBlock);
  }

  lemma PlainImage(j: Job, d: Disk, c: Scan)
    requires Proper(j) && Scanning(j.recs, j.s, j.t, j.m, c)
    requires IsChain(d.head, d.next, c.front + j.s[c.i..]) && NoneIn(c.front + j.s[c.i..], d.released)
    ensures SaneFor(j, ImageAt(j, d, c, []))
  {
    assert c.front + j.s[c.i..] + [] == c.front + j.s[c.i..];
    ImageSane(j, d, c, []);
  }

  /** A page that is unlinked (`n`) and then given back (`f`): each store leaves a sane image. */
  lemma DropStep(j: Job, d: Disk, n: Disk, f: Disk, c: Scan, e: Scan, newBlock: nat)
    requires Collecting(j, d, c, newBlock) && 0 < c.i < j.t && c.front != [] && DeadPage(j.recs[j.s[c.i]], j.m)
    requires j.s[c.i] in d.next && n == Skipped(j, d, c) && f == n.(released := n.released + {j.s[c.i]})
    requires e == Step(j.recs, j.s, c, true)
    ensures SaneFor(j, ImageAt(j, n, e, [])) && SaneFor(j, ImageAt(j, f, e, []))
    ensures Collecting(j, f, e, newBlock)
  {
    CollectingParts(j, d, c, newBlock);
    DropWalk(j, d, c, newBlock);
    PlainImage(j, n, e);
    PlainImage(j, f, e);
  }

  // ---------------------------------------------------------------------------------------
  // After the scan: link the new pages, move the head, give back a dead head page
  // ---------------------------------------------------------------------------------------

  ghost function Extended(j: Job, d: Disk, newBlock: nat): Disk
    requires j.s != []
  {
    d.(next := d.next[j.s[|j.s| - 1] := newBlock])
  }

  lemma ExtendChain(j: Job, d: Disk, c: Scan, newBlock: nat)
    requires Walk(j, d, c, newBlock) && c.i == j.t < |j.s| && Separate(j.s, j.extra)
    requires NoneIn(j.s, j.was) && NoneIn(j.extra, j.was)
    ensures IsChain(d.head, Extended(j, d, newBlock).next, c.front + j.s[j.t..] + j.extra)
    ensures NoneIn(c.front + j.s[j.t..] + j.extra, d.released)
  {
    var a := c.front + j.s[j.t..];
    AllWithin(j, c);
    Join(d.head, d.next, a, newBlock, j.extra);
    NotReturned(j, d.released, a);
  }

  lemma AllWithin(j: Job, c: Scan)
    requires Within(c.front, j.s) && j.t < |j.s| && Separate(j.s, j.extra)
    ensures var a := c.front + j.s[j.t..];
            Within(a, j.s) && Separate(a, j.extra) && a[|a| - 1] == j.s[|j.s| - 1]
  {
    var a := c.front + j.s[j.t..];
    forall i | 0 <= i < |a|
      ensures a[i] in j.s && a[i] !in j.extra
    {
      if i >= |c.front| {
        assert a[i] == j.s[j.t + i - |c.front|];
      }
    }
  }

  lemma ExtendStep(j: Job, d: Disk, c: Scan, newBlock: nat)
    requires CollectingLog(j, d, c, newBlock) && c.i == j.t
    ensures var n := Extended(j, d, newBlock);
            && IsChain(n.head, n.next, c.front + j.s[j.t..] + j.extra)
            && NoneIn(c.front + j.s[j.t..] + j.extra, n.released)
            && SaneFor(j, ImageAt(j, n, c, j.extra))
  {
    ExtendChain(j, d, c, newBlock);
    ImageSane(j, Extended(j, d, newBlock), c, j.extra);
  }

  /** The scan once the dead head page is out as well. */
  ghost function Beheaded(j: Job, c: Scan): Scan
    requires j.s != [] && j.s[0] in j.recs
  {
    Scan(c.i, c.live, false, c.live, c.drop + Addrs(j.recs[j.s[0]]))
  }

  lemma BeheadedReduced(j: Job, c: Scan)
    requires Proper(j) && Scanning(j.recs, j.s, j.t, j.m, c) && c.first
    ensures AllPresent(j.recs, c.live)
    ensures Reduced(Flat(j.recs, c.live), Flat(j.recs, j.s[..c.i]), Beheaded(j, c).drop, j.m)
  {
    assert forall k :: 0 <= k < |c.live| ==> c.live[k] == c.front[k + 1];
    PrefixDistinct(j, c.i);
    FirstDropped(j.recs, j.s[0], c.live, Flat(j.recs, j.s[..c.i]), c.drop, j.m);
  }

  lemma FirstDropped(recs: map<nat, seq<Rec>>, p: nat, pages: seq<nat>, a: seq<Rec>, drop: set<nat>, m: Marks)
    requires p in recs && AllPresent(recs, pages) && AllPresent(recs, [p] + pages)
    requires Reduced(Flat(recs, [p] + pages), a, drop, m) && DistinctAddrs(a) && DeadPage(recs[p], m)
    ensures Reduced(Flat(recs, pages), a, drop + Addrs(recs[p]), m)
  {
    FlatFirst(recs, p, pages);
    HeadDropped(recs[p], Flat(recs, pages), a, drop, m);
  }

  lemma FlatFirst(recs: map<nat, seq<Rec>>, p: nat, pages: seq<nat>)
    requires p in recs && AllPresent(recs, pages)
    ensures Flat(recs, [p] + pages) == recs[p] + Flat(recs, pages)
  {
    FlatConcat(recs, [p], pages);
    assert [p][..0] == [];
  }

  lemma BeheadedChain(j: Job, d: Disk, c: Scan, head: nat)
    requires j.t < |j.s| && c.front == [j.s[0]] + c.live
    requires IsChain(d.head, d.next, c.front + j.s[j.t..] + j.extra)
    requires NoneIn(c.front + j.s[j.t..] + j.extra, d.released)
    requires head == if c.live != [] then c.live[0] else j.s[j.t]
    ensures IsChain(head, d.next, c.live + j.s[j.t..] + j.extra)
    ensures d.head == j.s[0] && j.s[0] !in c.live + j.s[j.t..] + j.extra
    ensures NoneIn(c.live + j.s[j.t..] + j.extra, d.released + {j.s[0]})
  {
    var a, b := c.front + j.s[j.t..] + j.extra, c.live + j.s[j.t..] + j.extra;
    assert a == [j.s[0]] + b;
    assert a[1..] == b;
    Later(d.head, d.next, a, 1);
    assert a[1] == head;
    assert forall k :: 0 <= k < |b| ==> b[k] == a[k + 1];
  }

  /** Moving the head off a dead first page, and then giving that page back. */
  lemma HeadStep(j: Job, d: Disk, c: Scan, head: nat)
    requires Proper(j) && Scanning(j.recs, j.s, j.t, j.m, c) && c.i == j.t && c.first
    requires IsChain(d.head, d.next, c.front + j.s[j.t..] + j.extra)
    requires NoneIn(c.front + j.s[j.t..] + j.extra, d.released)
    requires head == if c.live != [] then c.live[0] else j.s[j.t]
    ensures var n := d.(head := head);
            && IsChain(head, d.next, c.live + j.s[j.t..] + j.extra)
            && SaneFor(j, ImageAt(j, n, Beheaded(j, c), j.extra))
            && SaneFor(j, ImageAt(j, n.(released := n.released + {j.s[0]}), Beheaded(j, c), j.extra))
  {
    BeheadedChain(j, d, c, head);
    BeheadedReduced(j, c);
    var n, e := d.(head := head), Beheaded(j, c);
    ImageSane(j, n, e, j.extra);
    ImageSane(j, n.(released := n.released + {j.s[0]}), e, j.extra);
  }

  lemma FirstOut(x: nat, b: seq<nat>)
    requires forall i, j :: 0 <= i < j < |[x] + b| ==> ([x] + b)[i] != ([x] + b)[j]
    ensures x !in b
  {
    assert ([x] + b)[0] == x;
    assert forall i :: 0 <= i < |b| ==> ([x] + b)[i + 1] == b[i];
  }

  lemma HeadReturned(j: Job, d: Disk, c: Scan, newBlock: nat)
    requires Walk(j, d, c, newBlock) && c.i == j.t < |j.s|
    requires c.front == if c.first then [j.s[0]] + c.live else c.live
    ensures Returned(if c.first then d.released + {j.s[0]} else d.released, j.was, j.s, c.live + j.s[j.t..])
  {
    if c.first {
      var x, b := j.s[0], c.live + j.s[j.t..];
      assert c.front + j.s[j.t..] == [x] + b;
      FirstOut(x, b);
      ReturnFirst(d.released, j.was, j.s, x, b);
    }
  }

  lemma ReturnFirst(released: set<nat>, was: set<nat>, s: seq<nat>, x: nat, b: seq<nat>)
    requires Returned(released, was, s, [x] + b) && x in s && x !in b
    ensures Returned(released + {x}, was, s, b)
  {
    assert forall p :: p in [x] + b <==> p == x || p in b;
  }

  /** The chain is exactly the live pages, the pages from the tail page on and the new pages, and
      exactly the other pages of the log have been given back. */
  ghost predicate Done(j: Job, d: Disk)
    requires AllPresent(j.recs, j.s) && j.t < |j.s|
  {
    var kept := LivePages(j.recs, j.s[..j.t], j.m) + j.s[j.t..];
    IsChain(d.head, d.next, kept + j.extra) && Returned(d.released, j.was, j.s, kept)
  }

  /** The stores after the scan: the link to the new pages (`n`), the head (`h`), and a dead head
      page given back (`r`). */
  lemma Ending(j: Job, d: Disk, n: Disk, h: Disk, r: Disk, c: Scan, e: Scan, newBlock: nat)
    requires Collecting(j, d, c, newBlock) && c.i == j.t
    requires e == if c.first then Beheaded(j, c) else c
    requires n == Extended(j, d, newBlock)
    requires h == n.(head := if c.live != [] then c.live[0] else j.s[j.t])
    requires r == if c.first then h.(released := h.released + {j.s[0]}) else h
    ensures SaneFor(j, ImageAt(j, n, c, j.extra)) && SaneFor(j, ImageAt(j, h, e, j.extra))
    ensures SaneFor(j, ImageAt(j, r, e, j.extra)) && Done(j, r)
  {
    Seen(j, d, c, newBlock);
    CollectingParts(j, d, c, newBlock);
    ExtendStep(j, d, c, newBlock);
    HeadReturned(j, d, c, newBlock);
    if c.first {
      HeadStep(j, n, c, h.head);
    }
  }

  // ---------------------------------------------------------------------------------------
  // The log in NVMM
  // ---------------------------------------------------------------------------------------

  class InodeLog {
    var head: nat
    var next: map<nat, nat>
    var recs: map<nat, seq<Rec>>
    var released: set<nat>
    /** The states that a crash during the collection would have left. */
    ghost var crashes: seq<Image>

    /** A log of one page without records. */
    constructor (page: nat)
      requires page > 0
      ensures Durable() == Disk(page, map[page := 0], {}) && IsChain(head, next, [page])
      ensures recs == map[page := []] && crashes == []
    {
      head, next, recs, released, crashes := page, map[page := 0], map[page := []], {}, [];
    }

    /** A log on the pages that `next` links from `head`. */
    constructor Of(head: nat, next: map<nat, nat>, recs: map<nat, seq<Rec>>)
      ensures this.head == head && this.next == next && this.recs == recs && released == {} && crashes == []
    {
      this.head, this.next, this.recs, released, crashes := head, next, recs, {}, [];
    }

    ghost function Durable(): Disk
      reads this
    {
      Disk(head, next, released)
    }

    /** The log has come from `start` to `d` by the stores on record. */
    ghost predicate Came(j: Job, start: Disk, d: Disk)
      reads this
    {
      d == Durable() && Latest(start, crashes) == d && Trace(j, start, crashes)
    }

    /** Puts the durable state after one more store on record. */
    ghost method Record(j: Job, start: Disk, d: Disk, c: Scan, more: seq<nat>)
      requires d == Durable() && Trace(j, start, crashes) && OneStore(Latest(start, crashes), d)
      requires c.i <= j.t < |j.s| && SaneFor(j, ImageAt(j, d, c, more))
      modifies `crashes
      ensures Came(j, start, d) && crashes != []
    {
      OneMore(j, start, crashes, ImageAt(j, d, c, more));
      crashes := crashes + [ImageAt(j, d, c, more)];
    }

    /** free_curr_page: the predecessor's link is durable before the page is given back. */
    method FreeCurrPage(curr: nat, lastPage: nat, ghost j: Job, ghost start: Disk, ghost d: Disk, ghost c: Scan,
                        ghost newBlock: nat)
      returns (ghost f: Disk)
      requires Came(j, start, d) && Collecting(j, d, c, newBlock)
      requires 0 < c.i < j.t && c.front != [] && lastPage == c.front[|c.front| - 1]
      requires curr == j.s[c.i] && curr in d.next && DeadPage(j.recs[curr], j.m)
      modifies `next, `released, `crashes
      ensures Came(j, start, f) && Collecting(j, f, Step(j.recs, j.s, c, true), newBlock)
    {
      ghost var e, n := Step(j.recs, j.s, c, true), Skipped(j, d, c);
      f := n.(released := n.released + {curr});
      DropStep(j, d, n, f, c, e, newBlock);
      next := next[lastPage := next[curr]];
      assert n == After(d, SetNext(lastPage, d.next[curr]));
      Record(j, start, n, e, []);
      released := released + {curr};
      assert f == After(n, GiveBack(curr));
      Record(j, start, f, e, []);
    }

    /** The stores after the scan. */
    method Finish(currTail: nat, newBlock: nat, possibleHead: nat, firstNeedFree: bool,
                  ghost j: Job, ghost start: Disk, ghost d: Disk, ghost c: Scan)
      requires Came(j, start, d) && Collecting(j, d, c, newBlock) && c.i == j.t
      requires d.head == j.s[0]
      requires currTail == j.s[|j.s| - 1] && firstNeedFree == c.first
      requires possibleHead == if c.live != [] then c.live[0] else j.s[j.t]
      modifies `head, `next, `released, `crashes
      ensures Came(j, start, Durable()) && Done(j, Durable()) && crashes != []
    {
      ghost var e := if c.first then Beheaded(j, c) else c;
      ghost var n := Extended(j, d, newBlock);
      ghost var h := n.(head := possibleHead);
      ghost var r := if c.first then h.(released := h.released + {j.s[0]}) else h;
      Ending(j, d, n, h, r, c, e, newBlock);
      var first := head;
      next := next[currTail := newBlock];
      assert n == After(d, SetNext(currTail, newBlock));
      Record(j, start, n, c, j.extra);
      head := possibleHead;
      assert h == After(n, SetHead(possibleHead));
      Record(j, start, h, e, j.extra);
      if firstNeedFree {
        released := released + {first};
        assert r == After(h, GiveBack(first));
        Record(j, start, r, e, j.extra);
      }
    }

    /** nova_inode_log_fast_gc: unlinks every page before the tail page that holds no valid
        record, appends the new pages, and moves the head past a dead first page. */
    method FastGc(currTail: nat, newBlock: nat, tail: nat, m: Marks, ghost j: Job)
      requires Proper(j) && j.recs == recs && j.m == m && j.was == released
      requires IsChain(head, next, j.s) && IsChain(newBlock, next, j.extra)
      requires j.s[j.t] == tail && currTail == j.s[|j.s| - 1]
      requires crashes == []
      modifies `head, `next, `released, `crashes
      ensures Came(j, old(Durable()), Durable()) && Done(j, Durable()) && crashes != []
    {
      var curr, lastPage, possibleHead := head, 0, 0;
      var foundHead, firstNeedFree := false, false;
      ghost var start := Durable();
      ghost var d, c := start, Scan(0, [], false, [], {});
      Start(j, d, newBlock);
      while curr != tail
        invariant Came(j, start, d) && Collecting(j, d, c, newBlock)
        invariant curr == j.s[c.i]
        invariant foundHead == (c.live != []) && firstNeedFree == c.first
        invariant foundHead ==> possibleHead == c.live[0]
        invariant c.front != [] ==> lastPage == c.front[|c.front| - 1]
        decreases j.t - c.i
      {
        Seen(j, d, c, newBlock);
        var dead := CurrPageInvalid(recs[curr], m);
        var after := next[curr];
        if dead && curr != head {
          d := FreeCurrPage(curr, lastPage, j, start, d, c, newBlock);
        } else {
          KeepStep(j, d, c, dead, newBlock);
          if dead {
            firstNeedFree := true;
          } else if !foundHead {
            possibleHead := curr;
            foundHead := true;
          }
          lastPage := curr;
        }
        c := Step(recs, j.s, c, dead);
        curr := after;
      }
      Seen(j, d, c, newBlock);
      if !foundHead {
        possibleHead := curr;
      }
      Finish(currTail, newBlock, possibleHead, firstNeedFree, j, start, d, c);
    }
  }
}
