/**
 The thorough collection of inode.c: copy the valid records to new pages, link them to the tail
 page, switch the head, and give the old pages back. The log that a crash leaves is the old one
 up to the switch of the head and the new one from then on.
 */
module LogCompact {
  import opened FileLog
  import opened FileData
  import opened FileBooks
  import opened LogChain
  import opened CopyLog

  datatype Nvm = Nvm(head: nat, next: map<nat, nat>, recs: map<nat, seq<Rec>>, released: set<nat>)

  /** A state that a crash would leave, with the chain on which its log is found. */
  datatype Snap = Snap(n: Nvm, chain: seq<nat>, t: nat)

  /** From the head one reaches the tail page without meeting a page given back, and on the way
      reads `log`. */
  ghost predicate ReadsAs(k: Snap, tail: nat, count: nat, log: seq<Rec>) {
    && IsChain(k.n.head, k.n.next, k.chain) && AllPresent(k.n.recs, k.chain)
    && k.t < |k.chain| && k.chain[k.t] == tail && count <= |k.n.recs[tail]|
    && NoneIn(k.chain, k.n.released)
    && LogOn(k.n.recs, k.chain, k.t, count) == log
  }

  ghost predicate Readable(k: Snap, tail: nat, count: nat, log: seq<Rec>) {
    forall i {:trigger Inside(TheImage, i)} :: Inside(TheImage, i) ==> ReadsAs(k, tail, count, log)
  }

  lemma ReadableParts(k: Snap, tail: nat, count: nat, log: seq<Rec>)
    requires Readable(k, tail, count, log)
    ensures ReadsAs(k, tail, count, log)
  {
    assert Inside(TheImage, 0);
  }

  // ---------------------------------------------------------------------------------------
  // Stores
  // ---------------------------------------------------------------------------------------

  datatype Store = SetHead(page: nat) | SetNext(of: nat, page: nat) | GiveBack(page: nat) | Append(page: nat, r: Rec)

  ghost function After(n: Nvm, st: Store): Nvm {
    match st
    case SetHead(p) => n.(head := p)
    case SetNext(q, p) => n.(next := n.next[q := p])
    case GiveBack(p) => n.(released := n.released + {p})
    case Append(p, r) => if p in n.recs then n.(recs := n.recs[p := n.recs[p] + [r]]) else n
  }

  ghost function Latest(start: Nvm, ks: seq<Snap>): Nvm {
    if ks == [] then start else ks[|ks| - 1].n
  }

  ghost predicate OneStore(a: Nvm, b: Nvm) {
    exists st :: b == After(a, st)
  }

  /** `ks` leads from `start` store by store, and on every state on the way one reads `log`. */
  ghost predicate Trace(start: Nvm, ks: seq<Snap>, tail: nat, count: nat, log: seq<Rec>) {
    ks == [] ||
    var k := |ks| - 1;
    && Trace(start, ks[..k], tail, count, log)
    && Readable(ks[k], tail, count, log)
    && OneStore(Latest(start, ks[..k]), ks[k].n)
  }

  lemma OneMore(start: Nvm, ks: seq<Snap>, k: Snap, tail: nat, count: nat, log: seq<Rec>)
    requires Trace(start, ks, tail, count, log) && Readable(k, tail, count, log)
    requires OneStore(Latest(start, ks), k.n)
    ensures Trace(start, ks + [k], tail, count, log) && Latest(start, ks + [k]) == k.n
  {
    assert (ks + [k])[..|ks|] == ks;
  }

  lemma {:induction false} TraceAt(start: Nvm, ks: seq<Snap>, tail: nat, count: nat, log: seq<Rec>, i: nat)
    requires Trace(start, ks, tail, count, log) && i < |ks|
    ensures ReadsAs(ks[i], tail, count, log)
  {
    if i < |ks| - 1 {
      TraceAt(start, ks[..|ks| - 1], tail, count, log, i);
    } else {
      ReadableParts(ks[i], tail, count, log);
    }
  }

  /** A store that leaves the pages of the chain alone. */
  lemma FrameReads(k: Snap, l: Snap, tail: nat, count: nat, log: seq<Rec>)
    requires ReadsAs(k, tail, count, log) && l.chain == k.chain && l.t == k.t && l.n.head == k.n.head
    requires forall i :: 0 <= i < |k.chain| ==>
               && k.chain[i] in l.n.next && l.n.next[k.chain[i]] == k.n.next[k.chain[i]]
               && k.chain[i] in l.n.recs && l.n.recs[k.chain[i]] == k.n.recs[k.chain[i]]
    requires NoneIn(l.chain, l.n.released)
    ensures ReadsAs(l, tail, count, log)
  {
    FlatSame(k.n.recs, l.n.recs, k.chain[..k.t]);
  }

  // ---------------------------------------------------------------------------------------
  // Copying
  // ---------------------------------------------------------------------------------------

  /** What stays the same: the pages `s` of the log, the tail page `s[t]` with `count` records
      before the tail, the records `log` on the pages before it and `end` on it (`was` page by
      page), `end` and what has been written beyond the tail (`rest`), the marks and the index at
      the start, the first new page, and whether there is a page to be had for every record. */
  datatype Work = Work(s: seq<nat>, t: nat, count: nat, was: map<nat, seq<Rec>>, log: seq<Rec>, end: seq<Rec>,
                       rest: seq<Rec>, m: Marks, tree: map<nat, Rec>, newHead: nat, enough: bool)

  ghost predicate Given(w: Work) {
    && 0 < w.t < |w.s| && DistinctAddrs(w.log) && |w.end| == w.count && w.end <= w.rest
    && AllPresent(w.was, w.s) && w.log == Flat(w.was, w.s[..w.t])
    && (forall p, i :: p in w.tree && 0 <= i < |w.log| && w.tree[p].addr == w.log[i].addr
                       ==> w.tree[p] == w.log[i] && Covers(w.log[i], p))
  }

  /** The number of records on the first `j` pages of the old log. */
  ghost function OldCount(w: Work, j: nat): nat {
    if j <= |w.s| && AllPresent(w.was, w.s) then |Flat(w.was, w.s[..j])| else 0
  }

  ghost predicate SameRecords(recs: map<nat, seq<Rec>>, was: map<nat, seq<Rec>>, s: seq<nat>) {
    forall i :: 0 <= i < |s| ==> s[i] in recs && s[i] in was && recs[s[i]] == was[s[i]]
  }

  ghost predicate GoingLog(w: Work, n: Nvm, c: Copy, i: nat) {
    && w.t < |w.s| && ReadsAs(Snap(n, w.s, w.t), w.s[w.t], w.count, w.log + w.end)
    && IsChain(w.newHead, n.next, c.pages) && c.recs == n.recs
    && Separate(w.s, c.pages) && NewPages(c.pages, w.log + w.rest) && NoneIn(c.pages, n.released)
    && SameRecords(n.recs, w.was, w.s)
    && Copying(c, w.log, i, w.m, w.tree)
  }

  /** The first `i` records have been passed. */
  ghost predicate Going(w: Work, n: Nvm, c: Copy, i: nat) {
    && w.t < |w.s| && i <= |w.log| && c.k < |c.pages| && c.pages[c.k] in c.recs && c.recs == n.recs
    && forall x {:trigger Inside(TheScan, x)} :: Inside(TheScan, x) ==> Given(w) && GoingLog(w, n, c, i)
  }

  lemma GoingParts(w: Work, n: Nvm, c: Copy, i: nat)
    requires Going(w, n, c, i)
    ensures Given(w) && GoingLog(w, n, c, i)
  {
    assert Inside(TheScan, 0);
  }

  lemma GoSkip(w: Work, n: Nvm, c: Copy, i: nat)
    requires Going(w, n, c, i) && i < |w.log| && EntryInvalid(w.log[i], c.m)
    ensures Going(w, n, c, i + 1)
  {
    GoingParts(w, n, c, i);
    SkipStep(c, w.log, i, w.m, w.tree);
  }

  lemma GoNextPage(w: Work, n: Nvm, c: Copy, d: Copy, i: nat)
    requires Going(w, n, c, i) && c.k + 1 < |c.pages| && d == c.(k := c.k + 1)
    ensures Going(w, n, d, i)
  {
    GoingParts(w, n, c, i);
    NextPageStep(c, d, w.log, i, w.m, w.tree);
  }

  /** A page that the allocator hands out for the new log. */
  ghost predicate Blank(p: nat, w: Work, n: Nvm, c: Copy) {
    && p != 0 && p in n.recs && n.recs[p] == [] && p in n.next && n.next[p] == 0
    && p !in n.released && p !in w.s && p !in c.pages && NewPages([p], w.log + w.rest)
  }

  lemma GoMorePages(w: Work, n: Nvm, l: Nvm, c: Copy, d: Copy, i: nat, p: nat)
    requires GoingLog(w, n, c, i) && Blank(p, w, n, c) && c.pages != []
    requires l == n.(next := n.next[c.pages[|c.pages| - 1] := p]) && d == c.(pages := c.pages + [p])
    ensures GoingLog(w, l, d, i)
  {
    MorePagesStep(c, d, p, w.log, i, w.m, w.tree);
    Join(w.newHead, n.next, c.pages, p, [p]);
    var last := c.pages[|c.pages| - 1];
    assert forall k :: 0 <= k < |w.s| ==> w.s[k] != last && w.s[k] != p;
    FrameReads(Snap(n, w.s, w.t), Snap(l, w.s, w.t), w.s[w.t], w.count, w.log + w.end);
    assert NewPages(d.pages, w.log + w.rest) by {
      assert p in [p];
    }
  }

  lemma NewToBoth(pages: seq<nat>, a: seq<Rec>, b: seq<Rec>)
    requires NewPages(pages, a + b)
    ensures NewPages(pages, a) && NewPages(pages, b)
  {
    assert forall i :: 0 <= i < |a| ==> (a + b)[i] == a[i];
    assert forall i :: 0 <= i < |b| ==> (a + b)[|a| + i] == b[i];
  }

  lemma GoCopy(w: Work, n: Nvm, l: Nvm, c: Copy, d: Copy, i: nat)
    requires Given(w) && GoingLog(w, n, c, i) && i < |w.log| && !EntryInvalid(w.log[i], c.m)
    requires Bytes(c.recs[c.pages[c.k]]) + SizeOf(w.log[i]) <= LAST_ENTRY
    requires d == Copied(c, w.log[i]) && l == n.(recs := d.recs)
    ensures GoingLog(w, l, d, i + 1)
  {
    NewToBoth(c.pages, w.log, w.rest);
    CopyStep(c, w.log, i, w.m, w.tree);
    var p := c.pages[c.k];
    assert forall k :: 0 <= k < |w.s| ==> w.s[k] != p;
    FrameReads(Snap(n, w.s, w.t), Snap(l, w.s, w.t), w.s[w.t], w.count, w.log + w.end);
  }

  // ---------------------------------------------------------------------------------------
  // Switching to the new log
  // ---------------------------------------------------------------------------------------

  /** The chain of the new log: the pages that were filled, then the old ones from the tail page. */
  function NewChain(w: Work, c: Copy): seq<nat>
    requires c.k < |c.pages| && w.t < |w.s|
  {
    c.pages[..c.k + 1] + w.s[w.t..]
  }

  /** The records on it. */
  ghost function NewLog(w: Work, c: Copy): seq<Rec> {
    MoveLog(Filter(w.log, LeftOut(w.log, w.m)), c.to) + w.end
  }

  /** All records have been passed; new pages that were not needed may be back already. */
  ghost predicate Built(w: Work, n: Nvm, c: Copy) {
    && w.t < |w.s| && ReadsAs(Snap(n, w.s, w.t), w.s[w.t], w.count, w.log + w.end)
    && IsChain(w.newHead, n.next, c.pages) && c.recs == n.recs
    && Separate(w.s, c.pages) && c.k < |c.pages| && NoneIn(c.pages[..c.k + 1], n.released)
    && Copying(c, w.log, |w.log|, w.m, w.tree)
  }

  ghost predicate Complete(w: Work, n: Nvm, c: Copy) {
    && 0 < w.t < |w.s| && c.k < |c.pages|
    && forall x {:trigger Inside(TheScan, x)} :: Inside(TheScan, x) ==> Given(w) && Built(w, n, c)
  }

  lemma CompleteParts(w: Work, n: Nvm, c: Copy)
    requires Complete(w, n, c)
    ensures Given(w) && Built(w, n, c)
  {
    assert Inside(TheScan, 0);
  }

  ghost function Pages(f: seq<nat>): set<nat> {
    set i | 0 <= i < |f| :: f[i]
  }

  /** Giving back the new pages from `k + 1` on. */
  lemma BuiltFreed(w: Work, n: Nvm, l: Nvm, c: Copy)
    requires Given(w) && GoingLog(w, n, c, |w.log|)
    requires l == n.(released := n.released + Pages(c.pages[c.k + 1..])) || l == n
    ensures Built(w, l, c)
  {
    assert forall i, j :: 0 <= i <= c.k < j < |c.pages| ==> c.pages[i] != c.pages[j];
    forall i | 0 <= i < |w.s|
      ensures w.s[i] !in l.released
    {
      assert w.s[i] !in c.pages;
    }
    FrameReads(Snap(n, w.s, w.t), Snap(l, w.s, w.t), w.s[w.t], w.count, w.log + w.end);
  }

  lemma Splice(first: nat, head: nat, next: map<nat, nat>, pages: seq<nat>, k: nat, s: seq<nat>, t: nat)
    requires IsChain(first, next, pages) && IsChain(head, next, s) && Separate(s, pages)
    requires k < |pages| && t < |s|
    ensures IsChain(first, next[pages[k] := s[t]], pages[..k + 1] + s[t..])
  {
    Earlier(first, next, pages, k);
    Later(head, next, s, t);
    var a, cut := pages[..k + 1], next[pages[k] := 0];
    assert pages[k] !in s;
    OtherChain(s[t], next, s[t..], pages[k], 0);
    Join(first, cut, a, s[t], s[t..]);
    assert cut[a[|a| - 1] := s[t]] == next[pages[k] := s[t]];
  }

  /** Linking the new pages to the tail page does not touch the old log; from then on, a head
      that is switched finds the new one. */
  lemma LinkStep(w: Work, n: Nvm, l: Nvm, h: Nvm, c: Copy)
    requires Given(w) && Built(w, n, c)
    requires l == n.(next := n.next[c.pages[c.k] := w.s[w.t]]) && h == l.(head := w.newHead)
    ensures ReadsAs(Snap(l, w.s, w.t), w.s[w.t], w.count, w.log + w.end)
    ensures ReadsAs(Snap(h, NewChain(w, c), c.k + 1), w.s[w.t], w.count, NewLog(w, c))
  {
    var p := c.pages[c.k];
    assert forall i :: 0 <= i < |w.s| ==> w.s[i] != p;
    FrameReads(Snap(n, w.s, w.t), Snap(l, w.s, w.t), w.s[w.t], w.count, w.log + w.end);
    Splice(w.newHead, n.head, n.next, c.pages, c.k, w.s, w.t);
    NewLogOn(w, n, c);
  }

  lemma SameEnd(a: seq<Rec>, e: seq<Rec>, b: seq<Rec>, f: seq<Rec>)
    requires a + e == b + f && |e| == |f|
    ensures e == f
  {
    assert e == (a + e)[|a|..] && f == (b + f)[|b|..];
  }

  lemma EndOf(w: Work, n: Nvm)
    requires Given(w) && ReadsAs(Snap(n, w.s, w.t), w.s[w.t], w.count, w.log + w.end)
    ensures n.recs[w.s[w.t]][..w.count] == w.end
  {
    SameEnd(Flat(n.recs, w.s[..w.t]), n.recs[w.s[w.t]][..w.count], w.log, w.end);
  }

  lemma NewLogOn(w: Work, n: Nvm, c: Copy)
    requires Given(w) && Built(w, n, c)
    ensures AllPresent(n.recs, NewChain(w, c)) && NewChain(w, c)[c.k + 1] == w.s[w.t]
    ensures LogOn(n.recs, NewChain(w, c), c.k + 1, w.count) == NewLog(w, c)
    ensures NoneIn(NewChain(w, c), n.released)
  {
    var nc := NewChain(w, c);
    assert nc[..c.k + 1] == c.pages[..c.k + 1];
    assert w.log[..|w.log|] == w.log;
    EndOf(w, n);
  }

  /** Cutting the old pages off leaves the new log alone and makes them a chain of their own. */
  lemma CutStep(w: Work, h: Nvm, l: Nvm, c: Copy, head: nat)
    requires 0 < w.t < |w.s| && c.k < |c.pages| && Separate(w.s, c.pages)
    requires ReadsAs(Snap(h, NewChain(w, c), c.k + 1), w.s[w.t], w.count, NewLog(w, c))
    requires IsChain(head, h.next, w.s)
    requires l == h.(next := h.next[w.s[w.t - 1] := 0])
    ensures h.next[w.s[w.t - 1]] == w.s[w.t]
    ensures ReadsAs(Snap(l, NewChain(w, c), c.k + 1), w.s[w.t], w.count, NewLog(w, c))
    ensures IsChain(head, l.next, w.s[..w.t]) && Separate(NewChain(w, c), w.s[..w.t])
  {
    var nc, p := NewChain(w, c), w.s[w.t - 1];
    Earlier(head, h.next, w.s, w.t - 1);
    forall i, j | 0 <= i < |nc| && 0 <= j < w.t
      ensures nc[i] != w.s[j]
    {
      assert nc[i] == if i <= c.k then c.pages[i] else w.s[w.t + i - c.k - 1];
    }
    FrameReads(Snap(h, nc, c.k + 1), Snap(l, nc, c.k + 1), w.s[w.t], w.count, NewLog(w, c));
  }

  // ---------------------------------------------------------------------------------------
  // Room for the next copy
  // ---------------------------------------------------------------------------------------

  /** The pages that the allocator will hand out. */
  ghost predicate AllBlank(spare: seq<nat>, w: Work, n: Nvm, c: Copy) {
    && (forall i :: 0 <= i < |spare| ==> Blank(spare[i], w, n, c))
    && (forall i, j :: 0 <= i < j < |spare| ==> spare[i] != spare[j])
  }

  ghost predicate InStock(spare: seq<nat>, w: Work, n: Nvm, c: Copy) {
    forall x {:trigger Inside(TheScan, x)} :: Inside(TheScan, x) ==> AllBlank(spare, w, n, c)
  }

  lemma InStockParts(spare: seq<nat>, w: Work, n: Nvm, c: Copy)
    requires InStock(spare, w, n, c)
    ensures AllBlank(spare, w, n, c)
  {
    assert Inside(TheScan, 0);
  }

  /** What the pass sees at the page it writes to. */
  lemma PageSeen(w: Work, n: Nvm, c: Copy, i: nat)
    requires Going(w, n, c, i)
    ensures c.pages[c.k] in n.next
    ensures n.next[c.pages[c.k]] == if c.k + 1 < |c.pages| then c.pages[c.k + 1] else 0
    ensures c.k + 1 < |c.pages| ==>
              c.pages[c.k + 1] != 0 && c.pages[c.k + 1] in n.recs && n.recs[c.pages[c.k + 1]] == []
  {
    GoingParts(w, n, c, i);
  }

  /** A page from the allocator is linked behind the last new page. */
  lemma ExtendStep(w: Work, n: Nvm, l: Nvm, c: Copy, d: Copy, i: nat, spare: seq<nat>)
    requires Going(w, n, c, i) && spare != [] && InStock(spare, w, n, c) && c.k + 1 == |c.pages|
    requires l == n.(next := n.next[c.pages[c.k] := spare[0]])
    requires d == c.(pages := c.pages + [spare[0]])
    ensures Going(w, l, d, i) && InStock(spare[1..], w, l, d)
    ensures Readable(Snap(l, w.s, w.t), w.s[w.t], w.count, w.log + w.end)
  {
    GoingParts(w, n, c, i);
    InStockParts(spare, w, n, c);
    GoMorePages(w, n, l, c, d, i, spare[0]);
  }

  /** A record is written to the new page. */
  lemma PutStep(w: Work, n: Nvm, l: Nvm, c: Copy, d: Copy, i: nat, spare: seq<nat>)
    requires Going(w, n, c, i) && InStock(spare, w, n, c) && i < |w.log| && !EntryInvalid(w.log[i], c.m)
    requires Bytes(c.recs[c.pages[c.k]]) + SizeOf(w.log[i]) <= LAST_ENTRY
    requires d == Copied(c, w.log[i]) && l == n.(recs := d.recs)
    ensures Going(w, l, d, i + 1) && InStock(spare, w, l, d)
    ensures Readable(Snap(l, w.s, w.t), w.s[w.t], w.count, w.log + w.end)
  {
    GoingParts(w, n, c, i);
    InStockParts(spare, w, n, c);
    GoCopy(w, n, l, c, d, i);
  }

  lemma StockKept(spare: seq<nat>, w: Work, n: Nvm, c: Copy, d: Copy)
    requires InStock(spare, w, n, c) && d.pages == c.pages
    ensures InStock(spare, w, n, d)
  {
    InStockParts(spare, w, n, c);
  }

  /** The owners that the pass will look for, and the address of the copy. */
  lemma OwnersSeen(w: Work, n: Nvm, c: Copy, i: nat, x: nat)
    requires Going(w, n, c, i) && i < |w.log|
    requires x == c.pages[c.k] * PAGE + Bytes(c.recs[c.pages[c.k]])
    ensures x != w.log[i].addr
    ensures forall p :: p in c.tree && c.tree[p].addr == w.log[i].addr ==> c.tree[p] == w.log[i] && Covers(w.log[i], p)
  {
    GoingParts(w, n, c, i);
    NewToBoth(c.pages, w.log, w.rest);
    NewAddress(c.pages, c.k, c.recs, w.log, x);
    assert w.log[i].addr !in c.to.Values;
  }

  ghost predicate Ready(w: Work, n: Nvm, m: Marks, tree: map<nat, Rec>, tail: nat, newHead: nat, pages: seq<nat>,
                        spare: seq<nat>)
  {
    && Given(w) && w.m == m && w.tree == tree && w.newHead == newHead && tail == w.s[w.t]
    && ReadsAs(Snap(n, w.s, w.t), tail, w.count, w.log + w.end) && SameRecords(n.recs, w.was, w.s)
    && IsChain(newHead, n.next, pages) && AllPresent(n.recs, pages)
    && (forall i :: 0 <= i < |pages| ==> n.recs[pages[i]] == [])
    && Separate(w.s, pages) && NewPages(pages, w.log + w.rest) && NoneIn(pages, n.released)
    && (w.enough ==> |spare| >= |w.log|) && AllBlank(spare, w, n, Copy(pages, 0, n.recs, map[], m, tree))
  }

  /** Before the first record. */
  lemma StartCopy(w: Work, n: Nvm, c: Copy, m: Marks, tree: map<nat, Rec>, tail: nat, newHead: nat, pages: seq<nat>,
                  spare: seq<nat>)
    requires Ready(w, n, m, tree, tail, newHead, pages, spare) && c == Copy(pages, 0, n.recs, map[], m, tree)
    ensures Going(w, n, c, 0) && InStock(spare, w, n, c)
  {
    assert w.log[..0] == [];
    assert MoveTree(w.tree, map[]) == w.tree;
    assert Flat(n.recs, pages[..1]) == [] by {
      FlatPrefix(n.recs, pages, 0);
    }
  }

  /** What the pass sees at page `j` of the old log, whose first record is the `i`-th. */
  lemma OldPageSeen(w: Work, n: Nvm, c: Copy, i: nat, j: nat)
    requires Going(w, n, c, i) && j <= w.t && AllPresent(w.was, w.s) && i == |Flat(w.was, w.s[..j])|
    ensures j < w.t ==>
              && w.s[j] in n.recs
              && i + |n.recs[w.s[j]]| == |Flat(w.was, w.s[..j + 1])| <= |w.log|
              && n.recs[w.s[j]] == w.log[i..i + |n.recs[w.s[j]]|]
    ensures j == w.t ==> i == |w.log|
  {
    GoingParts(w, n, c, i);
    if j < w.t {
      OldPage(w.was, w.s, w.t, j);
    }
  }

  lemma OldLink(w: Work, n: Nvm, c: Copy, i: nat, j: nat)
    requires Going(w, n, c, i) && j < w.t
    ensures w.s[j] != w.s[w.t] && w.s[j] in n.next && n.next[w.s[j]] == w.s[j + 1]
  {
    GoingParts(w, n, c, i);
  }

  lemma OldPage(recs: map<nat, seq<Rec>>, s: seq<nat>, t: nat, j: nat)
    requires AllPresent(recs, s) && j < t < |s|
    ensures var i, all := |Flat(recs, s[..j])|, Flat(recs, s[..t]);
            && i + |recs[s[j]]| == |Flat(recs, s[..j + 1])| <= |all|
            && recs[s[j]] == all[i..i + |recs[s[j]]|]
  {
    FlatPrefix(recs, s, j);
    assert s[..t] == s[..j + 1] + s[j + 1..t];
    FlatConcat(recs, s[..j + 1], s[j + 1..t]);
  }

  /** Giving back pages off the chain. */
  lemma FreeStep(k: Snap, l: Snap, p: nat, tail: nat, count: nat, log: seq<Rec>)
    requires ReadsAs(k, tail, count, log) && p !in k.chain
    requires l == Snap(k.n.(released := k.n.released + {p}), k.chain, k.t)
    ensures ReadsAs(l, tail, count, log)
  {
    FrameReads(k, l, tail, count, log);
  }

  /** The stores on record lead from `start` to `n`, and all along one reads the old log. */
  ghost predicate OldAllAlong(w: Work, start: Nvm, ks: seq<Snap>, n: Nvm) {
    forall x {:trigger Inside(TheTrace, x)} :: Inside(TheTrace, x) ==>
      w.t < |w.s| && Latest(start, ks) == n && Trace(start, ks, w.s[w.t], w.count, w.log + w.end)
  }

  lemma OldParts(w: Work, start: Nvm, ks: seq<Snap>, n: Nvm)
    requires OldAllAlong(w, start, ks, n)
    ensures w.t < |w.s| && Latest(start, ks) == n && Trace(start, ks, w.s[w.t], w.count, w.log + w.end)
  {
    assert Inside(TheTrace, 0);
  }

  lemma OldLatest(w: Work, start: Nvm, ks: seq<Snap>, n: Nvm)
    requires OldAllAlong(w, start, ks, n)
    ensures Latest(start, ks) == n
  {
    OldParts(w, start, ks, n);
  }

  lemma OldOnceMore(w: Work, start: Nvm, ks: seq<Snap>, n: Nvm, l: Nvm, st: Store)
    requires OldAllAlong(w, start, ks, n) && l == After(n, st)
    requires w.t < |w.s| && Readable(Snap(l, w.s, w.t), w.s[w.t], w.count, w.log + w.end)
    ensures OldAllAlong(w, start, ks + [Snap(l, w.s, w.t)], l)
  {
    OldParts(w, start, ks, n);
    OneMore(start, ks, Snap(l, w.s, w.t), w.s[w.t], w.count, w.log + w.end);
  }

  class InodeLog {
    var head: nat
    var next: map<nat, nat>
    var recs: map<nat, seq<Rec>>
    var released: set<nat>
    var marks: Marks
    var tree: map<nat, Rec>
    /** The states that a crash would have left, before and after the switch of the head. */
    ghost var before: seq<Snap>
    ghost var after: seq<Snap>

    /** A log of one page without records. */
    constructor (page: nat)
      requires page > 0
      ensures Nvmm() == Nvm(page, map[page := 0], map[page := []], {}) && IsChain(head, next, [page])
      ensures tree == map[] && before == [] && after == []
    {
      head, next, recs, released := page, map[page := 0], map[page := []], {};
      marks, tree, before, after := Marks(0, 0, map[]), map[], [], [];
    }

    /** A log on the pages that `next` links from `head`. */
    constructor Of(head: nat, next: map<nat, nat>, recs: map<nat, seq<Rec>>, marks: Marks, tree: map<nat, Rec>)
      ensures Nvmm() == Nvm(head, next, recs, {}) && this.marks == marks && this.tree == tree
      ensures before == [] && after == []
    {
      this.head, this.next, this.recs, released := head, next, recs, {};
      this.marks, this.tree, before, after := marks, tree, [], [];
    }

    ghost function Nvmm(): Nvm
      reads this
    {
      Nvm(head, next, recs, released)
    }

    /** The old log has been there since `start`, and `n` is the present state. */
    ghost predicate Came(w: Work, start: Nvm, n: Nvm)
      reads this
    {
      n == Nvmm() && OldAllAlong(w, start, before, n)
    }

    ghost method Record(w: Work, start: Nvm, n: Nvm, l: Nvm, st: Store)
      requires OldAllAlong(w, start, before, n) && l == Nvmm() && l == After(n, st)
      requires w.t < |w.s| && Readable(Snap(l, w.s, w.t), w.s[w.t], w.count, w.log + w.end)
      modifies `before
      ensures Came(w, start, l)
    {
      OldOnceMore(w, start, before, n, l, st);
      before := before + [Snap(l, w.s, w.t)];
    }

    /** nova_get_append_head: the page for a record of this size, extending the log by one page
        if need be.  It fails if and only if there is need and no page. */
    method GetAppendHead(cur: nat, size: nat, spare: seq<nat>, ghost w: Work, ghost start: Nvm, ghost n: Nvm,
                         ghost c: Copy, ghost i: nat)
      returns (ok: bool, now: nat, left: seq<nat>, ghost l: Nvm, ghost d: Copy)
      requires Came(w, start, n) && Going(w, n, c, i) && InStock(spare, w, n, c)
      requires cur == c.pages[c.k] && size <= LAST_ENTRY
      modifies `next, `before
      ensures !ok <==> Bytes(c.recs[cur]) + size > LAST_ENTRY && c.k + 1 == |c.pages| && spare == []
      ensures Came(w, start, l) && Going(w, l, d, i) && InStock(left, w, l, d)
      ensures ok ==> now == d.pages[d.k] && Bytes(d.recs[now]) + size <= LAST_ENTRY
      ensures ok ==> d.k == if Bytes(c.recs[cur]) + size > LAST_ENTRY then c.k + 1 else c.k
      ensures d.m == c.m && d.tree == c.tree && |left| >= |spare| - 1
    {
      ok, now, left, l, d := true, cur, spare, n, c;
      PageSeen(w, n, c, i);
      if Bytes(recs[cur]) + size > LAST_ENTRY {
        if next[cur] == 0 {
          if spare == [] {
            ok := false;
            return;
          }
          l, d := n.(next := n.next[cur := spare[0]]), c.(pages := c.pages + [spare[0]]);
          ExtendStep(w, n, l, c, d, i, spare);
          next, left := next[cur := spare[0]], spare[1..];
          Record(w, start, n, l, SetNext(cur, spare[0]));
          PageSeen(w, l, d, i);
        }
        now := next[cur];
        ghost var e := d.(k := d.k + 1);
        GoNextPage(w, l, d, e, i);
        StockKept(left, w, l, d, e);
        d := e;
      }
    }

    /** One record of the old log: left out, or copied and found from the index from then on.  Without a
        page for it the source stores through a null pointer; here the pass stops. */
    method CopyEntry(r: Rec, cur: nat, spare: seq<nat>, ghost w: Work, ghost start: Nvm, ghost n: Nvm, ghost c: Copy,
                     ghost i: nat)
      returns (ok: bool, now: nat, left: seq<nat>, ghost l: Nvm, ghost d: Copy)
      requires Came(w, start, n) && Going(w, n, c, i) && InStock(spare, w, n, c)
      requires i < |w.log| && r == w.log[i] && cur == c.pages[c.k] && c.m == marks && c.tree == tree
      modifies `next, `recs, `marks, `tree, `before
      ensures Came(w, start, l) && (!ok ==> spare == [])
      ensures ok ==> Going(w, l, d, i + 1) && InStock(left, w, l, d)
      ensures ok ==> now == d.pages[d.k] && d.m == marks && d.tree == tree && |left| >= |spare| - 1
    {
      if EntryInvalid(r, marks) {
        GoSkip(w, n, c, i);
        ok, now, left, l, d := true, cur, spare, n, c;
      } else {
        ok, now, left, l, d := GetAppendHead(cur, SizeOf(r), spare, w, start, n, c, i);
        if !ok {
          return;
        }
        ghost var e := Copied(d, r);
        ghost var k := l.(recs := e.recs);
        PutStep(w, l, k, d, e, i, left);
        var x := now * PAGE + Bytes(recs[now]);
        OwnersSeen(w, l, d, i, x);
        recs := recs[now := recs[now] + [Rec(x, r.e)]];
        Record(w, start, l, k, Append(now, Rec(x, r.e)));
        marks := Marked(marks, r, x);
        tree := AssignFileEntry(tree, r, x);
        l, d := k, e;
      }
    }

    /** The pass stands at record `i`: `n` and `c` say how far it has come, `cur` is the page that is
        being filled, `spare` are the pages still to be had. */
    ghost predicate Busy(w: Work, start: Nvm, n: Nvm, c: Copy, i: nat, cur: nat, spare: seq<nat>)
      reads this
    {
      forall x {:trigger Inside(TheLoop, x)} :: Inside(TheLoop, x) ==> BusyAt(w, start, n, c, i, cur, spare)
    }

    ghost predicate BusyAt(w: Work, start: Nvm, n: Nvm, c: Copy, i: nat, cur: nat, spare: seq<nat>)
      reads this
    {
      && Came(w, start, n) && Going(w, n, c, i) && InStock(spare, w, n, c) && c.k < |c.pages|
      && cur == c.pages[c.k] && c.m == marks && c.tree == tree && (w.enough ==> |spare| >= |w.log| - i)
    }

    /** The pass had to stop: the old log is all there. */
    ghost predicate Stopped(w: Work, start: Nvm, n: Nvm)
      reads this
    {
      forall x {:trigger Inside(TheLoop, x)} :: Inside(TheLoop, x) ==> !w.enough && Came(w, start, n)
    }

    lemma StoppedParts(w: Work, start: Nvm, n: Nvm)
      requires Stopped(w, start, n)
      ensures !w.enough && Came(w, start, n)
    {
      assert Inside(TheLoop, 0);
    }

    /** One record more. */
    method NextEntry(r: Rec, cur: nat, spare: seq<nat>, ghost w: Work, ghost start: Nvm, ghost n: Nvm, ghost c: Copy,
                     ghost i: nat)
      returns (ok: bool, now: nat, left: seq<nat>, ghost l: Nvm, ghost d: Copy, ghost k: nat)
      requires Busy(w, start, n, c, i, cur, spare) && i < |w.log| && r == w.log[i]
      modifies `next, `recs, `marks, `tree, `before
      ensures k == i + 1 && (ok ==> Busy(w, start, l, d, k, now, left)) && (!ok ==> Stopped(w, start, l))
    {
      assert Inside(TheLoop, 0);
      ok, now, left, l, d := CopyEntry(r, cur, spare, w, start, n, c, i);
      k := i + 1;
    }

    /** The records of one old page. */
    method CopyPage(page: seq<Rec>, cur: nat, spare: seq<nat>, ghost w: Work, ghost start: Nvm, ghost n: Nvm,
                    ghost c: Copy, ghost i: nat, ghost stop: nat)
      returns (ok: bool, now: nat, left: seq<nat>, ghost l: Nvm, ghost d: Copy)
      requires Busy(w, start, n, c, i, cur, spare) && stop == i + |page| <= |w.log| && page == w.log[i..stop]
      modifies `next, `recs, `marks, `tree, `before
      ensures (ok ==> Busy(w, start, l, d, stop, now, left)) && (!ok ==> Stopped(w, start, l))
    {
      ok, now, left, l, d := true, cur, spare, n, c;
      ghost var k := i;
      for j := 0 to |page|
        invariant k == i + j && Busy(w, start, l, d, k, now, left)
      {
        assert page[j] == w.log[k];
        ok, now, left, l, d, k := NextEntry(page[j], now, left, w, start, l, d, k);
        if !ok {
          return;
        }
      }
      assert k == stop;
      ok := true;
    }

    /** The loop over the old log up to the tail page. */
    method CopyAll(tail: nat, newHead: nat, spare: seq<nat>, ghost w: Work, ghost n: Nvm, ghost c: Copy)
      returns (ok: bool, now: nat, oldCurr: nat, ghost l: Nvm, ghost d: Copy)
      requires before == [] && n == Nvmm() && Going(w, n, c, 0) && InStock(spare, w, n, c)
      requires w.enough ==> |spare| >= |w.log|
      requires Given(w) && tail == w.s[w.t] && head == w.s[0]
      requires newHead == c.pages[c.k] && c.m == marks && c.tree == tree
      modifies `next, `recs, `marks, `tree, `before
      ensures !ok ==> Stopped(w, n, l)
      ensures ok ==> Came(w, n, l) && Going(w, l, d, |w.log|)
      ensures ok ==> now == d.pages[d.k] && d.m == marks && d.tree == tree && oldCurr == w.s[w.t - 1]
    {
      var left;
      ok, now, left, l, d := true, newHead, spare, n, c;
      var curr := head;
      oldCurr := head;
      ghost var j, i := 0, 0;
      while curr != tail
        invariant j <= w.t && curr == w.s[j] && (j > 0 ==> oldCurr == w.s[j - 1])
        invariant i == OldCount(w, j) && Busy(w, n, l, d, i, now, left)
        decreases w.t - j
      {
        oldCurr := curr;
        ok, curr, now, left, l, d, i := NextPage(curr, now, left, w, n, l, d, i, j);
        if !ok {
          return;
        }
        j := j + 1;
      }
      ok := true;
      BusyParts(w, n, l, d, i, now, left);
      if j < w.t {
        OldLink(w, l, d, i, j);
      }
    }

    lemma BusyParts(w: Work, start: Nvm, n: Nvm, c: Copy, i: nat, cur: nat, spare: seq<nat>)
      requires Busy(w, start, n, c, i, cur, spare)
      ensures BusyAt(w, start, n, c, i, cur, spare)
    {
      assert Inside(TheLoop, 0);
    }

    /** One page of the old log, and the link to the next. */
    method NextPage(curr: nat, cur: nat, spare: seq<nat>, ghost w: Work, ghost start: Nvm, ghost n: Nvm, ghost c: Copy,
                    ghost i: nat, ghost j: nat)
      returns (ok: bool, curr': nat, now: nat, left: seq<nat>, ghost l: Nvm, ghost d: Copy, ghost stop: nat)
      requires Given(w) && Busy(w, start, n, c, i, cur, spare) && j < w.t && curr == w.s[j] && i == OldCount(w, j)
      modifies `next, `recs, `marks, `tree, `before
      ensures !ok ==> Stopped(w, start, l)
      ensures ok ==> curr' == w.s[j + 1] && stop == OldCount(w, j + 1) && Busy(w, start, l, d, stop, now, left)
    {
      BusyParts(w, start, n, c, i, cur, spare);
      OldPageSeen(w, n, c, i, j);
      stop := i + |recs[curr]|;
      var page := recs[curr];
      curr' := curr;
      ok, now, left, l, d := CopyPage(page, cur, spare, w, start, n, c, i, stop);
      if !ok {
        return;
      }
      BusyParts(w, start, l, d, stop, now, left);
      OldLink(w, l, d, stop, j);
      curr' := next[curr];
    }

    /** nova_free_contiguous_log_blocks: gives back the pages on the chain from `first`, while
        the log on the pages `keep` stays readable. */
    method FreeLogBlocks(first: nat, ghost f: seq<nat>, ghost keep: seq<nat>, ghost t: nat, ghost tail: nat,
                         ghost count: nat, ghost log: seq<Rec>, ghost start: Nvm, ghost ks: seq<Snap>)
      returns (ghost ls: seq<Snap>)
      requires IsChain(first, next, f) && Separate(keep, f)
      requires ReadsAs(Snap(Nvmm(), keep, t), tail, count, log)
      requires Trace(start, ks, tail, count, log) && Latest(start, ks) == Nvmm()
      modifies `released
      ensures released == old(released) + Pages(f)
      ensures ReadsAs(Snap(Nvmm(), keep, t), tail, count, log)
      ensures Trace(start, ls, tail, count, log) && Latest(start, ls) == Nvmm() && ks <= ls
    {
      ls := ks;
      var curr := first;
      ghost var j := 0;
      while curr != 0
        invariant j <= |f| && curr == if j < |f| then f[j] else 0
        invariant released == old(released) + Pages(f[..j])
        invariant ReadsAs(Snap(Nvmm(), keep, t), tail, count, log)
        invariant Trace(start, ls, tail, count, log) && Latest(start, ls) == Nvmm() && ks <= ls
        decreases |f| - j
      {
        ghost var n := Nvmm();
        ghost var l := n.(released := n.released + {curr});
        FreeStep(Snap(n, keep, t), Snap(l, keep, t), curr, tail, count, log);
        assert l == After(n, GiveBack(curr));
        OneMore(start, ls, Snap(l, keep, t), tail, count, log);
        released := released + {curr};
        ls := ls + [Snap(l, keep, t)];
        PagesSnoc(f, j);
        curr := next[curr];
        j := j + 1;
      }
      assert f[..j] == f;
    }

    /** New pages that the copies did not need go back at once. */
    method FreeUnused(cur: nat, ghost w: Work, ghost start: Nvm, ghost n: Nvm, ghost c: Copy)
      requires Came(w, start, n) && Going(w, n, c, |w.log|) && cur == c.pages[c.k]
      modifies `released, `before
      ensures Complete(w, Nvmm(), c) && Came(w, start, Nvmm())
      ensures released == old(released) + Pages(c.pages[c.k + 1..])
    {
      PageSeen(w, n, c, |w.log|);
      GoingParts(w, n, c, |w.log|);
      OldParts(w, start, before, n);
      ghost var f := c.pages[c.k + 1..];
      if next[cur] != 0 {
        Later(w.newHead, next, c.pages, c.k + 1);
        before := FreeLogBlocks(next[cur], f, w.s, w.t, w.s[w.t], w.count, w.log + w.end, start, before);
      }
      BuiltFreed(w, n, Nvmm(), c);
    }

    /** Steps 1 to 4 of nova_inode_log_thorough_gc. */
    method Switch(cur: nat, oldCurr: nat, oldHead: nat, tail: nat, newHead: nat, ghost w: Work, ghost start: Nvm,
                  ghost n: Nvm, ghost c: Copy)
      requires Complete(w, n, c) && Came(w, start, n)
      requires cur == c.pages[c.k] && oldCurr == w.s[w.t - 1] && oldHead == head == w.s[0]
      requires tail == w.s[w.t] && newHead == w.newHead
      modifies `head, `next, `released, `before, `after
      ensures OldAllAlong(w, start, before, Linked(w, n, c)) && NewEverAfter(w, Linked(w, n, c), after, Nvmm(), c)
      ensures released == old(released) + Pages(w.s[..w.t])
    {
      ghost var l := Linked(w, n, c);
      ghost var h := l.(head := newHead);
      ghost var k := h.(next := h.next[oldCurr := 0]);
      Switching(w, n, l, h, k, c);
      next := next[cur := tail];
      Record(w, start, n, l, SetNext(cur, tail));
      head := newHead;
      assert next[oldCurr] == tail;
      next := next[oldCurr := 0];
      FreeOld(oldHead, w, l, h, k, c, NewChain(w, c), NewLog(w, c));
    }

    /** The old pages before the tail page go back one by one. */
    method FreeOld(oldHead: nat, ghost w: Work, ghost l: Nvm, ghost h: Nvm, ghost k: Nvm, ghost c: Copy,
                   ghost chain: seq<nat>, ghost log: seq<Rec>)
      requires 0 < w.t < |w.s| && k == Nvmm() && h.head == w.newHead && log == NewLog(w, c)
      requires Trace(l, [Snap(h, chain, c.k + 1), Snap(k, chain, c.k + 1)], w.s[w.t], w.count, log)
      requires ReadsAs(Snap(k, chain, c.k + 1), w.s[w.t], w.count, log)
      requires IsChain(oldHead, k.next, w.s[..w.t]) && Separate(chain, w.s[..w.t])
      modifies `released, `after
      ensures NewEverAfter(w, l, after, Nvmm(), c) && released == old(released) + Pages(w.s[..w.t])
    {
      after := FreeLogBlocks(oldHead, w.s[..w.t], chain, c.k + 1, w.s[w.t], w.count, log, l,
                             [Snap(h, chain, c.k + 1), Snap(k, chain, c.k + 1)]);
    }

    /** nova_inode_log_thorough_gc. `pages` are the new pages, `spare` those that the allocator
        will hand out if they do not suffice. Nothing happens if the log is a single page. If there
        is no page for a copy, the pass stops with the old log in place. */
    method ThoroughGc(tail: nat, newHead: nat, spare: seq<nat>, ghost w: Work, ghost pages: seq<nat>)
      returns (ok: bool, ghost c: Copy)
      requires before == [] && after == []
      requires w.s != [] && head == w.s[0]
      requires head != tail ==> Ready(w, Nvmm(), marks, tree, tail, newHead, pages, spare)
      modifies this
      ensures old(head) == tail ==> ok && Nvmm() == old(Nvmm()) && tree == old(tree) && marks == old(marks)
      ensures !ok ==> !w.enough && OldAllAlong(w, old(Nvmm()), before, Nvmm())
      ensures ok && old(head) != tail ==>
                && CopiedAll(w, c) && tree == c.tree && marks == c.m
                && OldAllAlong(w, old(Nvmm()), before, Latest(old(Nvmm()), before))
                && NewEverAfter(w, Latest(old(Nvmm()), before), after, Nvmm(), c)
                && released == old(released) + Pages(c.pages[c.k + 1..]) + Pages(w.s[..w.t])
    {
      ghost var n := Nvmm();
      ok, c := true, Copy(pages, 0, recs, map[], marks, tree);
      if head != tail {
        StartCopy(w, n, c, marks, tree, tail, newHead, pages, spare);
        var cur, oldCurr;
        ghost var l;
        ok, cur, oldCurr, l, c := CopyAll(tail, newHead, spare, w, n, c);
        if ok {
          SwitchOver(cur, oldCurr, tail, newHead, w, n, l, c);
        } else {
          StoppedParts(w, n, l);
        }
      }
    }

    /** What follows the copying pass. */
    method SwitchOver(cur: nat, oldCurr: nat, tail: nat, newHead: nat, ghost w: Work, ghost start: Nvm, ghost l: Nvm,
                      ghost c: Copy)
      requires Came(w, start, l) && Going(w, l, c, |w.log|) && cur == c.pages[c.k]
      requires 0 < w.t < |w.s| && oldCurr == w.s[w.t - 1] && head == w.s[0] && tail == w.s[w.t] && newHead == w.newHead
      modifies `head, `next, `released, `before, `after
      ensures CopiedAll(w, c) && OldAllAlong(w, start, before, Latest(start, before))
      ensures NewEverAfter(w, Latest(start, before), after, Nvmm(), c)
      ensures released == old(released) + Pages(c.pages[c.k + 1..]) + Pages(w.s[..w.t])
    {
      CopiesDone(w, l, c);
      FreeUnused(cur, w, start, l, c);
      ghost var k := Nvmm();
      Switch(cur, oldCurr, head, tail, newHead, w, start, k, c);
      OldLatest(w, start, before, Linked(w, k, c));
    }
  }

  /** The pass is done: all copies lie on new pages, and their counters tell the truth if those of the
      old log did. */
  ghost predicate CopiedAll(w: Work, c: Copy) {
    && Copying(c, w.log, |w.log|, w.m, w.tree) && NewPages(c.pages, w.log + w.rest)
    && (Trusted(w) ==> CountersTell(NewLog(w, c), c.m))
  }

  lemma CopiesDone(w: Work, n: Nvm, c: Copy)
    requires Going(w, n, c, |w.log|)
    ensures CopiedAll(w, c)
  {
    GoingParts(w, n, c, |w.log|);
    NewToBoth(c.pages, w.log, w.rest);
    if Trusted(w) {
      assert forall i :: 0 <= i < |w.end| ==> w.end[i] == w.rest[i];
      CompactionKeepsCounters(w, c);
    }
  }

  /** The new log is complete and linked to the tail page. */
  ghost function Linked(w: Work, n: Nvm, c: Copy): Nvm
    requires w.t < |w.s| && c.k < |c.pages|
  {
    n.(next := n.next[c.pages[c.k] := w.s[w.t]])
  }

  /** The link (`l`), the head (`h`), and cutting off the old pages (`k`). */
  lemma Switching(w: Work, n: Nvm, l: Nvm, h: Nvm, k: Nvm, c: Copy)
    requires Complete(w, n, c) && n.head == w.s[0]
    requires l == Linked(w, n, c) && h == l.(head := w.newHead) && k == h.(next := h.next[w.s[w.t - 1] := 0])
    ensures Readable(Snap(l, w.s, w.t), w.s[w.t], w.count, w.log + w.end)
    ensures Trace(l, [Snap(h, NewChain(w, c), c.k + 1), Snap(k, NewChain(w, c), c.k + 1)], w.s[w.t], w.count,
                  NewLog(w, c))
    ensures w.s[w.t - 1] in h.next && h.next[w.s[w.t - 1]] == w.s[w.t]
    ensures ReadsAs(Snap(k, NewChain(w, c), c.k + 1), w.s[w.t], w.count, NewLog(w, c))
    ensures IsChain(w.s[0], k.next, w.s[..w.t]) && Separate(NewChain(w, c), w.s[..w.t])
  {
    var nc := NewChain(w, c);
    CompleteParts(w, n, c);
    LinkStep(w, n, l, h, c);
    assert c.pages[c.k] !in w.s;
    OtherChain(w.s[0], n.next, w.s, c.pages[c.k], w.s[w.t]);
    CutStep(w, h, k, c, w.s[0]);
    TwoStores(l, Snap(h, nc, c.k + 1), SetHead(w.newHead), Snap(k, nc, c.k + 1), SetNext(w.s[w.t - 1], 0), w.s[w.t],
              w.count, NewLog(w, c));
  }

  lemma TwoStores(start: Nvm, a: Snap, x: Store, b: Snap, y: Store, tail: nat, count: nat, log: seq<Rec>)
    requires ReadsAs(a, tail, count, log) && ReadsAs(b, tail, count, log)
    requires a.n == After(start, x) && b.n == After(a.n, y)
    ensures Trace(start, [a, b], tail, count, log)
  {
    OneMore(start, [], a, tail, count, log);
    assert [] + [a] == [a] && [a] + [b] == [a, b];
    OneMore(start, [a], b, tail, count, log);
  }

  /** From the switch of the head on one reads the new log. */
  ghost predicate NewEverAfter(w: Work, start: Nvm, ks: seq<Snap>, n: Nvm, c: Copy) {
    && w.t < |w.s| && ks != [] && ks[0].n.head == w.newHead && Latest(start, ks) == n
    && Trace(start, ks, w.s[w.t], w.count, NewLog(w, c))
  }

  lemma PagesSnoc(f: seq<nat>, j: nat)
    requires j < |f|
    ensures Pages(f[..j + 1]) == Pages(f[..j]) + {f[j]}
  {
    var a, b := f[..j], f[..j + 1];
    assert forall i :: 0 <= i < j ==> b[i] == a[i];
    assert b[j] == f[j];
    forall x | x in Pages(a)
      ensures x in Pages(b)
    {
      var i :| 0 <= i < |a| && a[i] == x;
      assert b[i] == x;
    }
  }

  // ---------------------------------------------------------------------------------------
  // What the new log means
  // ---------------------------------------------------------------------------------------

  /** The new log is the old one, less what was left out, with the copies' addresses. */
  lemma NewLogIsMoved(w: Work, c: Copy)
    requires DistinctAddrs(w.log + w.end) && c.to.Keys <= Addrs(w.log)
    ensures NewLog(w, c) == MoveLog(Filter(w.log + w.end, LeftOut(w.log, w.m)), c.to)
  {
    var drop := LeftOut(w.log, w.m);
    LeftOutWithin(w.log, w.m);
    forall i | 0 <= i < |w.end|
      ensures w.end[i].addr !in drop && w.end[i].addr !in c.to
    {
      AddrApart(w.log, w.end, i);
    }
    FilterConcat(w.log, w.end, drop);
    FilterNone(w.end, drop);
    var a := Filter(w.log, drop);
    assert MoveLog(a + w.end, c.to) == MoveLog(a, c.to) + w.end;
  }

  /** Nothing that owns a page or changes the size is left out. */
  lemma LeftOutCollectable(log: seq<Rec>, end: seq<Rec>, m: Marks)
    requires CountersTell(log + end, m)
    ensures Collectable(log + end, LeftOut(log, m), {})
  {
    var all, drop := log + end, LeftOut(log, m);
    LeftOutWithin(log, m);
    assert forall i :: 0 <= i < |log| ==> all[i] == log[i];
    assert DistinctAddrs(log);
    forall i | 0 <= i < |all| && all[i].addr in drop
      ensures all[i].e.Write? ==> !Owns(Meaning(all).tree, all[i])
      ensures all[i].e.SetAttr? ==> !all[i].e.setsSize
    {
      var k :| 0 <= k < |log| && log[k].addr == all[i].addr;
      assert all[k] == log[k];
      LeftOutIff(log, m, k);
    }
  }

  /** The log is one that the operations write, the index is what it means, and full counters can be
      trusted. */
  ghost predicate Trusted(w: Work) {
    && WellSized(w.log + w.end) && Settled(w.log + w.end) && CountersTell(w.log + w.end, w.m)
    && w.tree == Meaning(w.log + w.end).tree
  }

  /** Recovery from the new log finds every page at the copy of its record and the same size,
      wherever the marks for the last attribute and link records point. */
  lemma CompactionKeepsFile(w: Work, c: Copy)
    requires Trusted(w) && Copying(c, w.log, |w.log|, w.m, w.tree)
    ensures Meaning(NewLog(w, c)).tree == c.tree
    ensures Meaning(NewLog(w, c)).size == Meaning(w.log + w.end).size
    ensures WellSized(NewLog(w, c)) && Settled(NewLog(w, c))
  {
    var all, drop := w.log + w.end, LeftOut(w.log, w.m);
    assert w.log[..|w.log|] == w.log;
    NewLogIsMoved(w, c);
    LeftOutCollectable(w.log, w.end, w.m);
    CollectionKeepsIndexAndSize(all, drop, {});
    ReplayMoved(Filter(all, drop), c.to);
    MovedSettled(Filter(all, drop), c.to);
  }

  /** A crash at any moment from the switch of the head on. */
  lemma CrashAfterSwitch(w: Work, start: Nvm, ks: seq<Snap>, n: Nvm, c: Copy, i: nat)
    requires NewEverAfter(w, start, ks, n, c) && i < |ks|
    requires Trusted(w) && Copying(c, w.log, |w.log|, w.m, w.tree)
    ensures ReadsAs(ks[i], w.s[w.t], w.count, NewLog(w, c))
    ensures var v := Meaning(LogOn(ks[i].n.recs, ks[i].chain, ks[i].t, w.count));
            v.tree == c.tree && v.size == Meaning(w.log + w.end).size
  {
    TraceAt(start, ks, w.s[w.t], w.count, NewLog(w, c), i);
    CompactionKeepsFile(w, c);
  }

  lemma NewAddrs(w: Work, c: Copy)
    requires Copying(c, w.log, |w.log|, w.m, w.tree)
    requires DistinctAddrs(w.end) && NewPages(c.pages, w.end)
    ensures DistinctAddrs(NewLog(w, c))
  {
    var a := Flat(c.recs, c.pages[..c.k + 1]);
    assert w.log[..|w.log|] == w.log;
    FilledAddrs(c.pages, c.k, c.recs, c.k + 1);
    var all := a + w.end;
    assert NewLog(w, c) == all;
    forall i, j | 0 <= i < j < |all|
      ensures all[i].addr != all[j].addr
    {
      if i < |a| <= j {
        assert PageOf(a[i]) in c.pages[..c.k + 1];
        assert PageOf(w.end[j - |a|]) !in c.pages;
      }
    }
  }

  /** A copied counter says what the record's own said. */
  lemma CopiedCounter(w: Work, c: Copy, r: Rec)
    requires Copying(c, w.log, |w.log|, w.m, w.tree) && NewPages(c.pages, w.end)
    requires r.addr in c.to || r in w.end
    ensures SameCounter(c.m.invalid, Moved(r, c.to).addr, w.m.invalid, r.addr)
    ensures r.e.Write? ==> (EntryInvalid(Moved(r, c.to), c.m) <==> EntryInvalid(r, w.m))
  {
    assert SameCounter(c.m.invalid, Moved(r, c.to).addr, w.m.invalid, r.addr) by {
      if r.addr !in c.to {
        CopiesElsewhere(w, c, r);
      }
    }
  }

  /** No copy lies where a record on the tail page does. */
  lemma CopiesElsewhere(w: Work, c: Copy, r: Rec)
    requires Copying(c, w.log, |w.log|, w.m, w.tree) && PageOf(r) !in c.pages
    ensures r.addr !in c.to.Values
  {
    ValuesAreFilled(c, w.log, |w.log|, w.m);
    FilledAddrs(c.pages, c.k, c.recs, c.k + 1);
    var copies := Flat(c.recs, c.pages[..c.k + 1]);
    forall i | 0 <= i < |copies|
      ensures copies[i].addr != r.addr
    {
      assert PageOf(copies[i]) in c.pages[..c.k + 1];
    }
  }

  /** The counters travel with the records, so that the next collection can trust them as this
      one could: the two properties above hold for any number of collections. */
  lemma CompactionKeepsCounters(w: Work, c: Copy)
    requires Trusted(w) && Copying(c, w.log, |w.log|, w.m, w.tree) && NewPages(c.pages, w.end)
    ensures CountersTell(NewLog(w, c), c.m)
  {
    var copy := NewLog(w, c);
    assert Meaning(copy).tree == c.tree by {
      CompactionKeepsFile(w, c);
    }
    NewDistinct(w, c);
    forall i | 0 <= i < |copy| && copy[i].e.Write? && EntryInvalid(copy[i], c.m)
      ensures !Owns(c.tree, copy[i])
    {
      CopyIsDead(w, c, i);
    }
  }

  lemma NewDistinct(w: Work, c: Copy)
    requires DistinctAddrs(w.log + w.end) && Copying(c, w.log, |w.log|, w.m, w.tree) && NewPages(c.pages, w.end)
    ensures DistinctAddrs(NewLog(w, c))
  {
    assert forall i :: 0 <= i < |w.end| ==> (w.log + w.end)[|w.log| + i] == w.end[i];
    NewAddrs(w, c);
  }

  lemma CopyIsDead(w: Work, c: Copy, i: nat)
    requires Trusted(w) && Copying(c, w.log, |w.log|, w.m, w.tree) && NewPages(c.pages, w.end)
    requires DistinctAddrs(NewLog(w, c)) && i < |NewLog(w, c)| && NewLog(w, c)[i].e.Write?
    requires EntryInvalid(NewLog(w, c)[i], c.m)
    ensures !Owns(c.tree, NewLog(w, c)[i])
  {
    var all, drop := w.log + w.end, LeftOut(w.log, w.m);
    var kept := Filter(all, drop);
    assert NewLog(w, c) == MoveLog(kept, c.to) by {
      assert w.log[..|w.log|] == w.log;
      NewLogIsMoved(w, c);
    }
    OwnersAreKept(w);
    KeptHasCopy(w, c, kept[i]);
    CopiedCounter(w, c, kept[i]);
    StillDead(all, drop, kept, w.m, w.tree, c.to, i);
  }

  /** What is kept was copied or lies on the tail page. */
  lemma KeptHasCopy(w: Work, c: Copy, r: Rec)
    requires Copying(c, w.log, |w.log|, w.m, w.tree) && r in Filter(w.log + w.end, LeftOut(w.log, w.m))
    ensures r.addr in c.to || r in w.end
  {
    FilterMembers(w.log + w.end, LeftOut(w.log, w.m));
    assert w.log[..|w.log|] == w.log;
    if r in w.log {
      var i :| 0 <= i < |w.log| && w.log[i] == r;
      assert w.log[i].addr in Addrs(w.log);
    }
  }

  /** A record that owns nothing owns nothing after it has moved. */
  lemma StillDead(all: seq<Rec>, drop: set<nat>, kept: seq<Rec>, m: Marks, tree: map<nat, Rec>, to: map<nat, nat>,
                  i: nat)
    requires kept == Filter(all, drop) && i < |kept| && kept[i].e.Write? && EntryInvalid(kept[i], m)
    requires CountersTell(all, m) && tree == Meaning(all).tree && DistinctAddrs(MoveLog(kept, to))
    requires forall p :: p in tree ==> tree[p] in kept
    ensures !Owns(MoveTree(tree, to), MoveLog(kept, to)[i])
  {
    FilterMembers(all, drop);
    assert kept[i] in kept;
    var j :| 0 <= j < |all| && all[j] == kept[i];
    MovedOwned(kept, to, tree, i);
    forall p | p in MoveTree(tree, to)
      ensures MoveTree(tree, to)[p] != MoveLog(kept, to)[i]
    {
      assert p !in Owned(tree, kept[i]);
      assert p !in Owned(MoveTree(tree, to), MoveLog(kept, to)[i]);
    }
  }

  lemma OwnersAreKept(w: Work)
    requires CountersTell(w.log + w.end, w.m) && w.tree == Meaning(w.log + w.end).tree
    ensures forall p :: p in w.tree ==> w.tree[p] in Filter(w.log + w.end, LeftOut(w.log, w.m))
  {
    var all, drop := w.log + w.end, LeftOut(w.log, w.m);
    LeftOutCollectable(w.log, w.end, w.m);
    FilterMembers(all, drop);
    forall p | p in w.tree
      ensures w.tree[p] in Filter(all, drop)
    {
      OwnersAreLogged(all, p);
      var i :| 0 <= i < |all| && all[i] == w.tree[p] && Covers(all[i], p);
      assert Owns(w.tree, all[i]);
    }
  }

  /** And the same attributes and link count, if the last attribute record was not left out. */
  lemma CompactionKeepsView(w: Work, c: Copy)
    requires WellSized(w.log + w.end) && Current(w.log + w.end, w.m)
    requires Copying(c, w.log, |w.log|, w.m, w.tree) && w.tree == Meaning(w.log + w.end).tree
    requires w.m.lastSetattr !in LeftOut(w.log, w.m)
    ensures Meaning(NewLog(w, c)) == Meaning(w.log + w.end).(tree := c.tree)
  {
    var all, drop := w.log + w.end, LeftOut(w.log, w.m);
    assert w.log[..|w.log|] == w.log;
    NewLogIsMoved(w, c);
    LeftOutCollectable(w.log, w.end, w.m);
    LastLinkKept(w.log, w.end, w.m);
    CollectionKeepsView(EMPTY, all, drop, {});
    ReplayMoved(Filter(all, drop), c.to);
  }

  lemma LastLinkKept(log: seq<Rec>, end: seq<Rec>, m: Marks)
    requires Current(log + end, m)
    ensures var k := LastOf(log + end, IsLinkChange); k >= 0 ==> (log + end)[k].addr !in LeftOut(log, m)
  {
    var all := log + end;
    var k := LastOf(all, IsLinkChange);
    LeftOutWithin(log, m);
    assert forall i :: 0 <= i < |log| ==> all[i] == log[i];
    assert DistinctAddrs(log);
    if k >= 0 && all[k].addr in LeftOut(log, m) {
      var i :| 0 <= i < |log| && log[i].addr == all[k].addr;
      assert all[i].addr == all[k].addr;
      LeftOutIff(log, m, i);
    }
  }

  /** The last attribute record may also have stayed on the tail page. The next collection then
      takes it for garbage if and only if this one copied a record that changes the size. */
  lemma MarkIsStaleIff(w: Work, c: Copy, j: nat)
    requires Current(w.log + w.end, w.m) && Copying(c, w.log, |w.log|, w.m, w.tree)
    requires j < |w.end| && w.end[j].e.SetAttr? && !w.end[j].e.setsSize && w.end[j].addr == w.m.lastSetattr
    requires w.end[j].addr !in c.to.Values
    ensures EntryInvalid(w.end[j], c.m) <==> SizeSetterIn(w.log)
  {
    assert w.log[..|w.log|] == w.log;
    CopiedAttrIff(w.log, w.m);
    AddrApart(w.log, w.end, j);
    assert forall i :: 0 <= i < |w.log| ==> w.log[i].addr in Addrs(w.log);
  }
}
