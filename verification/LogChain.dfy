/**
 An inode log as a chain of pages in NVMM, and the two garbage collections that rewrite the
 chain while a crash may happen after every store.
 */
module LogChain {
  import opened FileLog
  import opened FileBooks

  // ---------------------------------------------------------------------------------------
  // Chains
  // ---------------------------------------------------------------------------------------

  /** The pages `c`, linked in this order from `head` to a null link, without a cycle. */
  ghost predicate IsChain(head: nat, next: map<nat, nat>, c: seq<nat>) {
    && c != [] && c[0] == head && 0 !in c
    && (forall i, j :: 0 <= i < j < |c| ==> c[i] != c[j])
    && (forall i :: 0 <= i < |c| ==> c[i] in next)
    && (forall i :: 0 <= i < |c| - 1 ==> next[c[i]] == c[i + 1])
    && next[c[|c| - 1]] == 0
  }

  ghost predicate Separate(a: seq<nat>, b: seq<nat>) {
    forall i, j :: 0 <= i < |a| && 0 <= j < |b| ==> a[i] != b[j]
  }

  ghost predicate NoneIn(pages: seq<nat>, taken: set<nat>) {
    forall i :: 0 <= i < |pages| ==> pages[i] !in taken
  }

  lemma UnlinkAt(head: nat, next: map<nat, nat>, c: seq<nat>, i: nat)
    requires IsChain(head, next, c) && 0 < i < |c|
    ensures IsChain(head, next[c[i - 1] := next[c[i]]], c[..i] + c[i + 1..])
  {
    var d, n := c[..i] + c[i + 1..], next[c[i - 1] := next[c[i]]];
    assert forall k :: 0 <= k < |d| ==> d[k] == if k < i then c[k] else c[k + 1];
    assert 0 !in d by {
      assert forall k :: 0 <= k < |d| ==> d[k] in c;
    }
  }

  /** Taking page `p` out by making its predecessor point past it. */
  lemma Unlink(head: nat, next: map<nat, nat>, f: seq<nat>, p: nat, r: seq<nat>)
    requires IsChain(head, next, f + [p] + r) && f != []
    ensures p in next && IsChain(head, next[f[|f| - 1] := next[p]], f + r)
  {
    var c := f + [p] + r;
    assert c[..|f|] == f && c[|f| + 1..] == r && c[|f|] == p && c[|f| - 1] == f[|f| - 1];
    UnlinkAt(head, next, c, |f|);
  }

  /** Appending a chain of new pages to the last page. */
  lemma Join(head: nat, next: map<nat, nat>, c: seq<nat>, first: nat, d: seq<nat>)
    requires IsChain(head, next, c) && IsChain(first, next, d) && Separate(c, d)
    ensures IsChain(head, next[c[|c| - 1] := first], c + d)
  {
  }

  /** Starting the chain at a later page. */
  lemma Later(head: nat, next: map<nat, nat>, c: seq<nat>, i: nat)
    requires IsChain(head, next, c) && i < |c|
    ensures IsChain(c[i], next, c[i..])
  {
    assert forall k :: 0 <= k < |c[i..]| ==> c[i..][k] in c;
  }

  /** Ending the chain at an earlier page. */
  lemma Earlier(head: nat, next: map<nat, nat>, c: seq<nat>, i: nat)
    requires IsChain(head, next, c) && i < |c|
    ensures IsChain(head, next[c[i] := 0], c[..i + 1])
  {
    var d := c[..i + 1];
    assert forall k :: 0 <= k < |d| ==> d[k] in c;
  }

  lemma OtherChain(head: nat, next: map<nat, nat>, c: seq<nat>, p: nat, x: nat)
    requires IsChain(head, next, c) && p !in c
    ensures IsChain(head, next[p := x], c)
  {
  }

  // ---------------------------------------------------------------------------------------
  // The records on a chain
  // ---------------------------------------------------------------------------------------

  /** The records of some pages, in order. */
  function Flat(recs: map<nat, seq<Rec>>, pages: seq<nat>): seq<Rec>
    requires forall i :: 0 <= i < |pages| ==> pages[i] in recs
  {
    if pages == [] then [] else Flat(recs, pages[..|pages| - 1]) + recs[pages[|pages| - 1]]
  }

  lemma FlatAppend(recs: map<nat, seq<Rec>>, pages: seq<nat>, p: nat)
    requires p in recs && forall i :: 0 <= i < |pages| ==> pages[i] in recs
    ensures Flat(recs, pages + [p]) == Flat(recs, pages) + recs[p]
  {
    assert (pages + [p])[..|pages|] == pages;
  }

  lemma {:induction false} FilterConcat(a: seq<Rec>, b: seq<Rec>, drop: set<nat>)
    ensures Filter(a + b, drop) == Filter(a, drop) + Filter(b, drop)
  {
    if b == [] {
      assert a + b == a;
    } else {
      var k := |b| - 1;
      FilterConcat(a, b[..k], drop);
      assert (a + b)[..|a + b| - 1] == a + b[..k];
    }
  }

  lemma {:induction false} FilterNone(log: seq<Rec>, drop: set<nat>)
    requires forall i :: 0 <= i < |log| ==> log[i].addr !in drop
    ensures Filter(log, drop) == log
  {
    if log != [] {
      FilterNone(log[..|log| - 1], drop);
    }
  }

  lemma {:induction false} FilterAll(log: seq<Rec>, drop: set<nat>)
    requires forall i :: 0 <= i < |log| ==> log[i].addr in drop
    ensures Filter(log, drop) == []
  {
    if log != [] {
      FilterAll(log[..|log| - 1], drop);
    }
  }

  /** Enlarging `drop` by addresses that do not occur changes nothing. */
  lemma {:induction false} FilterSame(log: seq<Rec>, drop: set<nat>, more: set<nat>)
    requires forall i :: 0 <= i < |log| ==> log[i].addr !in more
    ensures Filter(log, drop + more) == Filter(log, drop)
  {
    if log != [] {
      FilterSame(log[..|log| - 1], drop, more);
    }
  }

  function Addrs(log: seq<Rec>): set<nat> {
    set i | 0 <= i < |log| :: log[i].addr
  }

  // ---------------------------------------------------------------------------------------
  // Which records are garbage
  // ---------------------------------------------------------------------------------------

  /** What the validity test looks at besides the record: sih->last_setattr,
      sih->last_link_change and the counters. */
  datatype Marks = Marks(lastSetattr: nat, lastLink: nat, invalid: map<nat, nat>)

  /** curr_log_entry_invalid */
  predicate EntryInvalid(r: Rec, m: Marks) {
    match r.e
    case SetAttr(setsSize, _, _) => r.addr != m.lastSetattr && !setsSize
    case LinkChange(_) => r.addr != m.lastLink
    case Write(_, num, _, _) => r.addr in m.invalid && m.invalid[r.addr] == num
  }

  /** Size of a record in NVMM. */
  function SizeOf(r: Rec): nat {
    if r.e.Write? then 40 else 32
  }

  /** A set of addresses that the validity test rejects. */
  ghost predicate AllInvalid(log: seq<Rec>, drop: set<nat>, m: Marks) {
    forall i :: 0 <= i < |log| && log[i].addr in drop ==> EntryInvalid(log[i], m)
  }

  ghost predicate AllPresent(recs: map<nat, seq<Rec>>, pages: seq<nat>) {
    forall i :: 0 <= i < |pages| ==> pages[i] in recs
  }

  ghost predicate DeadPage(page: seq<Rec>, m: Marks) {
    forall i :: 0 <= i < |page| ==> EntryInvalid(page[i], m)
  }

  /** curr_page_invalid */
  method CurrPageInvalid(page: seq<Rec>, m: Marks) returns (dead: bool)
    ensures dead <==> DeadPage(page, m)
  {
    dead := true;
    for i := 0 to |page|
      invariant dead <==> forall j :: 0 <= j < i ==> EntryInvalid(page[j], m)
    {
      if !EntryInvalid(page[i], m) {
        dead := false;
      }
    }
  }

  /** The pages that hold at least one valid record. */
  ghost function LivePages(recs: map<nat, seq<Rec>>, pages: seq<nat>, m: Marks): seq<nat>
    requires AllPresent(recs, pages)
  {
    if pages == [] then []
    else
      var k := |pages| - 1;
      LivePages(recs, pages[..k], m) + (if DeadPage(recs[pages[k]], m) then [] else [pages[k]])
  }

  // ---------------------------------------------------------------------------------------
  // Crash images
  // ---------------------------------------------------------------------------------------

  /** What a crash leaves: the head in the inode, the links, and which pages are back with the
      allocator. `chain`, `t` and `drop` are the witnesses for Sane. */
  datatype Image = Image(head: nat, next: map<nat, nat>, released: set<nat>, chain: seq<nat>, t: nat, drop: set<nat>)

  /** The committed records on a chain whose page `t` holds the log tail. */
  function LogOn(recs: map<nat, seq<Rec>>, c: seq<nat>, t: nat, count: nat): seq<Rec>
    requires t < |c| && (forall i :: 0 <= i < |c| ==> c[i] in recs) && count <= |recs[c[t]]|
  {
    Flat(recs, c[..t]) + recs[c[t]][..count]
  }

  /** The walk of a rebuild along the links from the head to the tail. */
  method ReadLog(head: nat, next: map<nat, nat>, recs: map<nat, seq<Rec>>, tail: nat, count: nat, ghost c: seq<nat>,
                 ghost t: nat)
    returns (log: seq<Rec>)
    requires IsChain(head, next, c) && AllPresent(recs, c) && t < |c| && c[t] == tail && count <= |recs[tail]|
    ensures log == LogOn(recs, c, t, count)
  {
    log := [];
    var curr := head;
    ghost var i := 0;
    while curr != tail
      invariant i <= t && curr == c[i] && log == Flat(recs, c[..i])
      decreases t - i
    {
      FlatPrefix(recs, c, i);
      log := log + recs[curr];
      curr := next[curr];
      i := i + 1;
    }
    log := log + recs[tail][..count];
  }

  /** From this image the log can be walked from the head to the tail page without meeting a
      page that was given back, and what is read is `log` without some invalid records. */
  ghost predicate Sane(k: Image, recs: map<nat, seq<Rec>>, tail: nat, count: nat, log: seq<Rec>, m: Marks) {
    && IsChain(k.head, k.next, k.chain)
    && AllPresent(recs, k.chain)
    && k.t < |k.chain| && k.chain[k.t] == tail && count <= |recs[tail]|
    && (forall i :: 0 <= i < |k.chain| ==> k.chain[i] !in k.released)
    && LogOn(recs, k.chain, k.t, count) == Filter(log, k.drop)
    && AllInvalid(log, k.drop, m)
  }

  /** A counter that says "all invalid" belongs to a record without a page. */
  ghost predicate CountersTell(log: seq<Rec>, m: Marks) {
    && DistinctAddrs(log)
    && (forall i :: 0 <= i < |log| && log[i].e.Write? && EntryInvalid(log[i], m) ==> !Owns(Meaning(log).tree, log[i]))
  }

  /** Besides, the last attribute and link records are where the marks say. */
  ghost predicate Current(log: seq<Rec>, m: Marks) {
    && CountersTell(log, m)
    && (LastOf(log, IsSetAttr) >= 0 ==> log[LastOf(log, IsSetAttr)].addr == m.lastSetattr)
    && (LastOf(log, IsLinkChange) >= 0 ==> log[LastOf(log, IsLinkChange)].addr == m.lastLink)
  }

  /** Recovery from any sane image finds index and size of the uncollected log, whichever of the
      dead write records it recognises as dead, and wherever the marks for the last attribute
      and link records point. */
  lemma SaneImageReplays(v0: View, k: Image, recs: map<nat, seq<Rec>>, tail: nat, count: nat,
                         log: seq<Rec>, m: Marks, marks: set<nat>)
    requires Fresh(v0) && WellSized(log) && Settled(log) && CountersTell(log, m)
    requires LastOf(log, Resizes) < 0 ==> v0.size == 0
    requires Sane(k, recs, tail, count, log, m)
    requires forall i :: 0 <= i < |log| && log[i].e.Write? && log[i].addr in marks ==> EntryInvalid(log[i], m)
    ensures var v := Replay(v0, LogOn(recs, k.chain, k.t, count), marks);
            v.tree == Meaning(log).tree && v.size == Meaning(log).size
  {
    CollectionKeepsFile(v0, log, k.drop, marks);
  }

  /** And exactly its attributes and links, if these marks are right. */
  lemma SaneImageKeepsView(v0: View, k: Image, recs: map<nat, seq<Rec>>, tail: nat, count: nat,
                           log: seq<Rec>, m: Marks, marks: set<nat>)
    requires Fresh(v0) && WellSized(log) && Current(log, m)
    requires Sane(k, recs, tail, count, log, m)
    requires forall i :: 0 <= i < |log| && log[i].e.Write? && log[i].addr in marks ==> EntryInvalid(log[i], m)
    ensures Replay(v0, LogOn(recs, k.chain, k.t, count), marks) == Replay(v0, log, {})
  {
    CollectionKeepsView(v0, log, k.drop, marks);
  }

  // ---------------------------------------------------------------------------------------
  // Fast collection: unlink pages without a valid record
  // ---------------------------------------------------------------------------------------

  lemma Regroup(a: seq<Rec>, b: seq<Rec>, c: seq<Rec>)
    ensures a + (b + c) == a + b + c
  {
  }

  lemma {:induction false} FlatConcat(recs: map<nat, seq<Rec>>, a: seq<nat>, b: seq<nat>)
    requires AllPresent(recs, a) && AllPresent(recs, b)
    ensures Flat(recs, a + b) == Flat(recs, a) + Flat(recs, b)
  {
    if b == [] {
      assert a + b == a;
    } else {
      var k := |b| - 1;
      var c, p := b[..k], b[k];
      FlatConcat(recs, a, c);
      assert b == c + [p] && a + b == (a + c) + [p];
      FlatAppend(recs, c, p);
      FlatAppend(recs, a + c, p);
      Regroup(Flat(recs, a), Flat(recs, c), recs[p]);
    }
  }

  lemma FlatPrefix(recs: map<nat, seq<Rec>>, s: seq<nat>, i: nat)
    requires AllPresent(recs, s) && i < |s|
    ensures Flat(recs, s[..i + 1]) == Flat(recs, s[..i]) + recs[s[i]]
  {
    assert s[..i + 1] == s[..i] + [s[i]];
    FlatAppend(recs, s[..i], s[i]);
  }

  /** `kept` is what remains of `a` after dropping `drop`, all of it garbage in `a`. */
  ghost predicate Reduced(kept: seq<Rec>, a: seq<Rec>, drop: set<nat>, m: Marks) {
    && kept == Filter(a, drop)
    && drop <= Addrs(a)
    && AllInvalid(a, drop, m)
  }

  lemma AddrApart(a: seq<Rec>, b: seq<Rec>, i: nat)
    requires DistinctAddrs(a + b) && i < |b|
    ensures b[i].addr !in Addrs(a)
  {
    assert (a + b)[|a| + i] == b[i];
    forall j | 0 <= j < |a|
      ensures a[j].addr != b[i].addr
    {
      assert (a + b)[j] == a[j];
    }
  }

  lemma ReducedKeep(kept: seq<Rec>, a: seq<Rec>, b: seq<Rec>, drop: set<nat>, m: Marks)
    requires Reduced(kept, a, drop, m) && DistinctAddrs(a + b)
    ensures Reduced(kept + b, a + b, drop, m)
  {
    forall i | 0 <= i < |b|
      ensures b[i].addr !in drop
    {
      AddrApart(a, b, i);
    }
    FilterConcat(a, b, drop);
    FilterNone(b, drop);
    forall i | 0 <= i < |a|
      ensures a[i].addr in Addrs(a + b)
    {
      assert (a + b)[i] == a[i];
    }
  }

  lemma ReducedDrop(kept: seq<Rec>, a: seq<Rec>, b: seq<Rec>, drop: set<nat>, m: Marks)
    requires Reduced(kept, a, drop, m) && DistinctAddrs(a + b) && DeadPage(b, m)
    ensures Reduced(kept, a + b, drop + Addrs(b), m)
  {
    var more := Addrs(b);
    forall i | 0 <= i < |a|
      ensures a[i].addr !in more
    {
      assert (a + b)[i] == a[i];
      assert forall j :: 0 <= j < |b| ==> (a + b)[|a| + j] == b[j];
    }
    FilterConcat(a, b, drop + more);
    FilterSame(a, drop, more);
    FilterAll(b, drop + more);
    forall i | 0 <= i < |a + b|
      ensures (a + b)[i].addr in Addrs(a + b)
      ensures (a + b)[i].addr in drop + more ==> EntryInvalid((a + b)[i], m)
    {
    }
    assert drop + more <= Addrs(a + b) by {
      assert forall i :: 0 <= i < |a| ==> (a + b)[i] == a[i];
      assert forall j :: 0 <= j < |b| ==> (a + b)[|a| + j] == b[j];
    }
  }

  /** Where the scan stands at page `i`: `live` are the pages worth keeping so far, `front` the
      pages behind the scan that are still linked. They differ by the head page if that is
      garbage (`first`): it goes last. */
  datatype Scan = Scan(i: nat, live: seq<nat>, first: bool, front: seq<nat>, drop: set<nat>)

  ghost predicate ScanPages(recs: map<nat, seq<Rec>>, s: seq<nat>, t: nat, m: Marks, c: Scan) {
    && AllPresent(recs, s) && c.i <= t < |s|
    && c.live == LivePages(recs, s[..c.i], m)
    && c.front == (if c.first then [s[0]] + c.live else c.live)
    && AllPresent(recs, c.front)
    && (c.first <==> c.i > 0 && DeadPage(recs[s[0]], m))
    && (c.i > 0 && !c.first ==> c.live != [] && c.live[0] == s[0])
  }

  ghost predicate Scanning(recs: map<nat, seq<Rec>>, s: seq<nat>, t: nat, m: Marks, c: Scan) {
    && ScanPages(recs, s, t, m, c)
    && Reduced(Flat(recs, c.front), Flat(recs, s[..c.i]), c.drop, m)
  }

  function Step(recs: map<nat, seq<Rec>>, s: seq<nat>, c: Scan, dead: bool): Scan
    requires c.i < |s| && s[c.i] in recs
  {
    if !dead then c.(i := c.i + 1, live := c.live + [s[c.i]], front := c.front + [s[c.i]])
    else if c.i == 0 then c.(i := 1, first := true, front := c.front + [s[0]])
    else c.(i := c.i + 1, drop := c.drop + Addrs(recs[s[c.i]]))
  }

  lemma LiveStep(recs: map<nat, seq<Rec>>, s: seq<nat>, i: nat, m: Marks)
    requires AllPresent(recs, s) && i < |s|
    ensures LivePages(recs, s[..i + 1], m)
            == if DeadPage(recs[s[i]], m) then LivePages(recs, s[..i], m) else LivePages(recs, s[..i], m) + [s[i]]
  {
    assert s[..i + 1][..i] == s[..i];
  }

  lemma ScanPagesStep(recs: map<nat, seq<Rec>>, s: seq<nat>, t: nat, m: Marks, c: Scan, dead: bool)
    requires ScanPages(recs, s, t, m, c) && c.i < t
    requires dead <==> DeadPage(recs[s[c.i]], m)
    ensures ScanPages(recs, s, t, m, Step(recs, s, c, dead))
  {
    LiveStep(recs, s, c.i, m);
    if !dead {
      FrontGrows(s[0], c.live, s[c.i], c.first, c.front);
      PresentMore(recs, c.front, s[c.i]);
    } else if c.i == 0 {
      assert c.live == [] && c.front == [];
      PresentMore(recs, c.front, s[0]);
    }
  }

  lemma FrontGrows(x: nat, live: seq<nat>, p: nat, first: bool, front: seq<nat>)
    requires front == if first then [x] + live else live
    ensures front + [p] == if first then [x] + (live + [p]) else live + [p]
  {
  }

  lemma PresentMore(recs: map<nat, seq<Rec>>, pages: seq<nat>, p: nat)
    requires AllPresent(recs, pages) && p in recs
    ensures AllPresent(recs, pages + [p])
  {
  }

  lemma FrontKeep(recs: map<nat, seq<Rec>>, f: seq<nat>, s: seq<nat>, i: nat, drop: set<nat>, m: Marks)
    requires AllPresent(recs, s) && AllPresent(recs, f) && i < |s|
    requires Reduced(Flat(recs, f), Flat(recs, s[..i]), drop, m)
    requires DistinctAddrs(Flat(recs, s[..i + 1]))
    ensures Reduced(Flat(recs, f + [s[i]]), Flat(recs, s[..i + 1]), drop, m)
  {
    FlatPrefix(recs, s, i);
    FlatAppend(recs, f, s[i]);
    ReducedKeep(Flat(recs, f), Flat(recs, s[..i]), recs[s[i]], drop, m);
  }

  lemma FrontDrop(recs: map<nat, seq<Rec>>, f: seq<nat>, s: seq<nat>, i: nat, drop: set<nat>, m: Marks)
    requires AllPresent(recs, s) && AllPresent(recs, f) && i < |s|
    requires Reduced(Flat(recs, f), Flat(recs, s[..i]), drop, m) && DeadPage(recs[s[i]], m)
    requires DistinctAddrs(Flat(recs, s[..i + 1]))
    ensures Reduced(Flat(recs, f), Flat(recs, s[..i + 1]), drop + Addrs(recs[s[i]]), m)
  {
    FlatPrefix(recs, s, i);
    ReducedDrop(Flat(recs, f), Flat(recs, s[..i]), recs[s[i]], drop, m);
  }

  lemma FrontStep(recs: map<nat, seq<Rec>>, s: seq<nat>, m: Marks, c: Scan, d: Scan, dead: bool)
    requires AllPresent(recs, s) && c.i < |s| && AllPresent(recs, c.front) && AllPresent(recs, d.front)
    requires dead ==> DeadPage(recs[s[c.i]], m)
    requires d.front == (if dead && c.i > 0 then c.front else c.front + [s[c.i]])
    requires d.drop == (if dead && c.i > 0 then c.drop + Addrs(recs[s[c.i]]) else c.drop)
    requires Reduced(Flat(recs, c.front), Flat(recs, s[..c.i]), c.drop, m)
    requires DistinctAddrs(Flat(recs, s[..c.i + 1]))
    ensures Reduced(Flat(recs, d.front), Flat(recs, s[..c.i + 1]), d.drop, m)
  {
    if dead && c.i > 0 {
      FrontDrop(recs, c.front, s, c.i, c.drop, m);
    } else {
      FrontKeep(recs, c.front, s, c.i, c.drop, m);
    }
  }

  lemma ScanStep(recs: map<nat, seq<Rec>>, s: seq<nat>, t: nat, m: Marks, c: Scan, dead: bool)
    requires Scanning(recs, s, t, m, c) && c.i < t
    requires dead <==> DeadPage(recs[s[c.i]], m)
    requires DistinctAddrs(Flat(recs, s[..c.i + 1]))
    ensures Scanning(recs, s, t, m, Step(recs, s, c, dead))
  {
    ScanPagesStep(recs, s, t, m, c, dead);
    FrontStep(recs, s, m, c, Step(recs, s, c, dead), dead);
  }

  lemma SliceThrough(a: seq<nat>, s: seq<nat>, i: nat, t: nat, extra: seq<nat>)
    requires i <= t < |s|
    ensures (a + s[i..] + extra)[..|a| + t - i] == a + s[i..t]
    ensures (a + s[i..] + extra)[|a| + t - i] == s[t]
  {
  }

  lemma LogSplit(recs: map<nat, seq<Rec>>, s: seq<nat>, i: nat, t: nat, count: nat)
    requires AllPresent(recs, s) && i <= t < |s| && count <= |recs[s[t]]|
    ensures LogOn(recs, s, t, count) == Flat(recs, s[..i]) + (Flat(recs, s[i..t]) + recs[s[t]][..count])
  {
    assert s[..t] == s[..i] + s[i..t];
    FlatConcat(recs, s[..i], s[i..t]);
  }

  /** If the pages `front` hold what is left of the first `i` pages, then `front`, the remaining
      pages and any pages behind them hold what is left of the whole log. */
  lemma ImageOf(recs: map<nat, seq<Rec>>, front: seq<nat>, s: seq<nat>, i: nat, t: nat, count: nat, drop: set<nat>,
                m: Marks, extra: seq<nat>)
    requires AllPresent(recs, s) && AllPresent(recs, front) && AllPresent(recs, extra)
    requires i <= t < |s| && count <= |recs[s[t]]|
    requires Reduced(Flat(recs, front), Flat(recs, s[..i]), drop, m)
    requires DistinctAddrs(LogOn(recs, s, t, count))
    ensures var c := front + s[i..] + extra;
            && AllPresent(recs, c)
            && c[|front| + t - i] == s[t]
            && LogOn(recs, c, |front| + t - i, count) == Filter(LogOn(recs, s, t, count), drop)
    ensures AllInvalid(LogOn(recs, s, t, count), drop, m)
  {
    var log, mid, end := LogOn(recs, s, t, count), Flat(recs, s[i..t]), recs[s[t]][..count];
    var c, k := front + s[i..] + extra, |front| + t - i;
    LogSplit(recs, s, i, t, count);
    assert Reduced(Flat(recs, front) + (mid + end), log, drop, m) by {
      ReducedKeep(Flat(recs, front), Flat(recs, s[..i]), mid + end, drop, m);
    }
    SliceThrough(front, s, i, t, extra);
    assert LogOn(recs, c, k, count) == Flat(recs, front) + mid + end by {
      FlatConcat(recs, front, s[i..t]);
    }
    Regroup(Flat(recs, front), mid, end);
  }

  lemma FilterSnoc(log: seq<Rec>, r: Rec, drop: set<nat>)
    ensures Filter(log + [r], drop) == if r.addr in drop then Filter(log, drop) else Filter(log, drop) + [r]
  {
    assert (log + [r])[..|log|] == log;
  }

  lemma {:induction false} FilterTwice(log: seq<Rec>, d: set<nat>, e: set<nat>)
    ensures Filter(Filter(log, d), e) == Filter(log, d + e)
  {
    if log != [] {
      var k := |log| - 1;
      assert log == log[..k] + [log[k]];
      FilterTwice(log[..k], d, e);
      FilterSnoc(log[..k], log[k], d);
      FilterSnoc(log[..k], log[k], d + e);
      FilterSnoc(Filter(log[..k], d), log[k], e);
    }
  }

  /** Dropping a dead page from the front. */
  lemma HeadDropped(page: seq<Rec>, rest: seq<Rec>, a: seq<Rec>, drop: set<nat>, m: Marks)
    requires Reduced(page + rest, a, drop, m) && DistinctAddrs(a) && DeadPage(page, m)
    ensures Reduced(rest, a, drop + Addrs(page), m)
  {
    var d := Addrs(page);
    FilterMembers(a, drop);
    FilterTwice(a, drop, d);
    FilterConcat(page, rest, d);
    FilterAll(page, d);
    forall i | 0 <= i < |rest|
      ensures rest[i].addr !in d
    {
      AddrApart(page, rest, i);
    }
    FilterNone(rest, d);
    forall x | x in d
      ensures exists i :: 0 <= i < |a| && a[i].addr == x && EntryInvalid(a[i], m)
    {
      var j :| 0 <= j < |page| && page[j].addr == x;
      assert (page + rest)[j] == page[j];
      assert page[j] in a;
    }
    forall i | 0 <= i < |a| && a[i].addr in d
      ensures EntryInvalid(a[i], m)
    {
      var j :| 0 <= j < |a| && a[j].addr == a[i].addr && EntryInvalid(a[j], m);
    }
  }
}
