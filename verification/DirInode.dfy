/**
 A directory while it is mounted: its log with the pages it lies on, the index, and the place where
 rename looks for the parent.
 */
module DirInode {
  import opened Directory
  import F = FileLog
  import D = FileData

  const PAGE: nat := F.PAGE
  const LAST_ENTRY: nat := F.LAST_ENTRY

  const DOT: nat := 0
  const DOTDOT: nat := 1

  /** NOVA_DIR_LOG_REC_LEN: 29 bytes and the name, rounded up to eight. */
  function RecLen(len: nat): nat {
    (len + 36) / 8 * 8
  }

  lemma RecLenIs(len: nat)
    ensures RecLen(len) % 8 == 0 && len + 29 <= RecLen(len) < len + 29 + 8
  {
    assert RecLen(len) / 8 == (len + 36) / 8;
  }

  function PageOf(r: Dentry): nat {
    r.addr / PAGE
  }

  // ---------------------------------------------------------------------------------------
  // Layout
  // ---------------------------------------------------------------------------------------

  /** The record lies in its page, clear of the link. */
  predicate InPage(r: Dentry) {
    r.addr % PAGE + RecLen(r.len) <= LAST_ENTRY
  }

  ghost predicate Unequal(a: nat, b: nat) {
    a != b
  }

  ghost predicate AllDiffer(pages: seq<nat>) {
    forall i, j {:trigger Unequal(pages[i], pages[j])} :: 0 <= i < j < |pages| ==> Unequal(pages[i], pages[j])
  }

  /** If `a` is on page `last`, so is `b`. */
  ghost predicate NoEarlier(a: Dentry, b: Dentry, last: nat) {
    PageOf(a) == last ==> PageOf(b) == last
  }

  ghost predicate LastComesLast(log: seq<Dentry>, last: nat) {
    forall i, j {:trigger NoEarlier(log[i], log[j], last)} :: 0 <= i < j < |log| ==> NoEarlier(log[i], log[j], last)
  }

  /** The records lie on the pages of the log; those on the last page come last and end before the
      tail. */
  ghost predicate LaidOut(log: seq<Dentry>, pages: seq<nat>, tail: nat) {
    && pages != [] && AllDiffer(pages)
    && tail / PAGE == pages[|pages| - 1] && tail % PAGE <= LAST_ENTRY
    && (forall i :: 0 <= i < |log| ==> InPage(log[i]) && PageOf(log[i]) in pages)
    && (forall i :: 0 <= i < |log| && PageOf(log[i]) == tail / PAGE ==> log[i].addr + RecLen(log[i].len) <= tail)
    && LastComesLast(log, tail / PAGE)
  }

  /** The log begins with "." at the start of the head page and ".." right behind it. */
  ghost predicate Rooted(log: seq<Dentry>, invalid: set<nat>, head: nat) {
    && |log| >= 2 && Live(log[0], invalid) && Live(log[1], invalid)
    && log[0].name == DOT && log[0].len == 1 && log[0].addr == head * PAGE
    && log[1].name == DOTDOT && log[1].len == 2 && log[1].addr == head * PAGE + RecLen(1)
  }

  lemma PageAddr(p: nat, off: nat)
    requires off < PAGE
    ensures (p * PAGE + off) / PAGE == p && (p * PAGE + off) % PAGE == off
  {
  }

  lemma AppendedLaid(log: seq<Dentry>, pages: seq<nat>, tail: nat, r: Dentry, next: nat, pages': seq<nat>)
    requires LaidOut(log, pages, tail) && next !in pages && RecLen(r.len) <= LAST_ENTRY
    requires r.addr == if tail % PAGE + RecLen(r.len) > LAST_ENTRY then next * PAGE else tail
    requires pages' == if tail % PAGE + RecLen(r.len) > LAST_ENTRY then pages + [next] else pages
    ensures LaidOut(log + [r], pages', r.addr + RecLen(r.len))
    ensures forall i :: 0 <= i < |log| ==> log[i].addr != r.addr
  {
    var all, end := log + [r], r.addr + RecLen(r.len);
    PageAddr(next, 0);
    PageAddr(PageOf(r), r.addr % PAGE + RecLen(r.len));
    assert end / PAGE == PageOf(r) && end % PAGE <= LAST_ENTRY;
    forall i, j | 0 <= i < j < |pages'|
      ensures Unequal(pages'[i], pages'[j])
    {
      assert j < |pages| ==> Unequal(pages[i], pages[j]);
    }
    forall i, j | 0 <= i < j < |all|
      ensures NoEarlier(all[i], all[j], end / PAGE)
    {
      assert j < |log| ==> NoEarlier(log[i], log[j], tail / PAGE);
    }
  }

  // ---------------------------------------------------------------------------------------
  // Dropping records
  // ---------------------------------------------------------------------------------------

  lemma {:induction false} KeptLast(log: seq<Dentry>, drop: set<nat>, last: nat)
    requires LastComesLast(log, last)
    ensures LastComesLast(Kept(log, drop), last)
  {
    if log != [] {
      var k := |log| - 1;
      var p, r := log[..k], log[k];
      forall i, j | 0 <= i < j < k
        ensures NoEarlier(p[i], p[j], last)
      {
        assert NoEarlier(log[i], log[j], last);
      }
      KeptLast(p, drop, last);
      KeptMembers(p, drop);
      var a := Kept(p, drop);
      var all := a + [r];
      forall i, j | 0 <= i < j < |all|
        ensures NoEarlier(all[i], all[j], last)
      {
        if j < |a| {
          assert NoEarlier(a[i], a[j], last);
        } else {
          assert a[i] in p;
          var x :| 0 <= x < k && p[x] == a[i];
          assert NoEarlier(log[x], log[k], last);
        }
      }
    }
  }

  lemma KeptLaid(log: seq<Dentry>, drop: set<nat>, pages: seq<nat>, now: seq<nat>, tail: nat)
    requires LaidOut(log, pages, tail) && now != [] && AllDiffer(now) && now[|now| - 1] == tail / PAGE
    requires forall i :: 0 <= i < |log| && log[i].addr !in drop ==> PageOf(log[i]) in now
    ensures LaidOut(Kept(log, drop), now, tail)
  {
    var a := Kept(log, drop);
    KeptMembers(log, drop);
    KeptLast(log, drop, tail / PAGE);
    forall i | 0 <= i < |a|
      ensures InPage(a[i]) && PageOf(a[i]) in now
      ensures PageOf(a[i]) == tail / PAGE ==> a[i].addr + RecLen(a[i].len) <= tail
    {
      assert a[i] in a;
    }
  }

  lemma {:induction false} KeptRooted(log: seq<Dentry>, drop: set<nat>, invalid: set<nat>)
    requires |log| >= 2 && Live(log[0], invalid) && Live(log[1], invalid) && Droppable(log, drop, invalid)
    ensures |Kept(log, drop)| >= 2 && Kept(log, drop)[0] == log[0] && Kept(log, drop)[1] == log[1]
  {
    var k := |log| - 1;
    assert log[0].addr !in drop && log[1].addr !in drop;
    if k == 1 {
      assert log[..1][..0] == [];
      assert Kept(log[..1], drop) == [log[0]];
    } else {
      KeptRooted(log[..k], drop, invalid);
    }
  }

  /** curr_page_invalid */
  predicate DeadPage(log: seq<Dentry>, invalid: set<nat>, p: nat) {
    forall i :: 0 <= i < |log| && PageOf(log[i]) == p ==> !Live(log[i], invalid)
  }

  function LivePages(log: seq<Dentry>, invalid: set<nat>, pages: seq<nat>): seq<nat> {
    if pages == [] then []
    else
      var k := |pages| - 1;
      LivePages(log, invalid, pages[..k]) + (if DeadPage(log, invalid, pages[k]) then [] else [pages[k]])
  }

  lemma {:induction false} LivePagesMembers(log: seq<Dentry>, invalid: set<nat>, pages: seq<nat>)
    ensures forall p :: p in LivePages(log, invalid, pages) <==> p in pages && !DeadPage(log, invalid, p)
    ensures AllDiffer(pages) ==> AllDiffer(LivePages(log, invalid, pages))
    ensures pages != [] && !DeadPage(log, invalid, pages[0]) ==>
              LivePages(log, invalid, pages) != [] && LivePages(log, invalid, pages)[0] == pages[0]
  {
    if pages != [] {
      var k := |pages| - 1;
      LivePagesMembers(log, invalid, pages[..k]);
      assert pages == pages[..k] + [pages[k]];
      var a := LivePages(log, invalid, pages[..k]);
      if AllDiffer(pages) {
        forall i, j | 0 <= i < j < k
          ensures Unequal(pages[..k][i], pages[..k][j])
        {
          assert Unequal(pages[i], pages[j]);
        }
        forall i | 0 <= i < |a|
          ensures a[i] != pages[k]
        {
          assert a[i] in pages[..k];
          var x :| 0 <= x < k && pages[..k][x] == a[i];
          assert Unequal(pages[x], pages[k]);
        }
        var all := a + [pages[k]];
        forall i, j | 0 <= i < j < |all|
          ensures Unequal(all[i], all[j])
        {
          assert j < |a| ==> Unequal(a[i], a[j]);
        }
      }
    }
  }

  /** The addresses on the pages that a fast collection frees. */
  function OnDeadPages(log: seq<Dentry>, invalid: set<nat>, pages: seq<nat>): set<nat> {
    set i | 0 <= i < |log| && PageOf(log[i]) in pages && DeadPage(log, invalid, PageOf(log[i])) :: log[i].addr
  }

  // ---------------------------------------------------------------------------------------
  // Copying records
  // ---------------------------------------------------------------------------------------

  /** The copy lies on one of the pages up to page `k`, and on page `k` before `off`. */
  ghost predicate Below(r: Dentry, pages: seq<nat>, k: nat, off: nat) {
    && InPage(r)
    && exists p ::
         0 <= p <= k < |pages| && PageOf(r) == pages[p] && (p < k || r.addr % PAGE + RecLen(r.len) <= off)
  }

  ghost predicate Apart(a: Dentry, b: Dentry) {
    a.addr != b.addr
  }

  ghost predicate Distinct(log: seq<Dentry>) {
    forall i, j {:trigger Apart(log[i], log[j])} :: 0 <= i < j < |log| ==> Apart(log[i], log[j])
  }

  lemma SameRecord(log: seq<Dentry>, i: nat, j: nat)
    requires Distinct(log) && i < |log| && j < |log| && log[i].addr == log[j].addr
    ensures i == j
  {
    assert i < j ==> Apart(log[i], log[j]);
    assert j < i ==> Apart(log[j], log[i]);
  }

  /** The copies are packed: the next one goes to offset `off` of page `k`, or to the next page. */
  ghost predicate Packed(copies: seq<Dentry>, pages: seq<nat>, k: nat, off: nat) {
    && off <= LAST_ENTRY && (copies == [] ==> k == 0 && off == 0) && (copies != [] ==> k < |copies|) && k < |pages|
    && (forall j :: 0 <= j < |copies| ==> Below(copies[j], pages, k, off))
    && Distinct(copies)
    && (|copies| == 1 ==> k == 0 && off == RecLen(copies[0].len))
    && (|copies| >= 1 ==> copies[0].addr == pages[0] * PAGE)
    && (|copies| >= 2 && RecLen(copies[0].len) + RecLen(copies[1].len) <= LAST_ENTRY ==>
          copies[1].addr == pages[0] * PAGE + RecLen(copies[0].len))
  }

  lemma StaysBelow(r: Dentry, pages: seq<nat>, k: nat, off: nat, k': nat, off': nat)
    requires Below(r, pages, k, off) && k <= k' < |pages| && (k == k' ==> off <= off')
    ensures Below(r, pages, k', off')
  {
    var p :| 0 <= p <= k && PageOf(r) == pages[p] && (p < k || r.addr % PAGE + RecLen(r.len) <= off);
    assert 0 <= p <= k' && PageOf(r) == pages[p] && (p < k' || r.addr % PAGE + RecLen(r.len) <= off');
  }

  lemma NewPlace(r: Dentry, pages: seq<nat>, k: nat, off: nat, x: nat)
    requires Below(r, pages, k, off) && AllDiffer(pages) && off < PAGE && x == pages[k] * PAGE + off
    requires RecLen(r.len) > 0
    ensures r.addr != x
  {
    PageAddr(pages[k], off);
    var p :| 0 <= p <= k && PageOf(r) == pages[p] && (p < k || r.addr % PAGE + RecLen(r.len) <= off);
    assert p < k ==> Unequal(pages[p], pages[k]);
  }

  /** One more copy. */
  lemma PackNext(copies: seq<Dentry>, pages: seq<nat>, k: nat, off: nat, r: Dentry, k': nat, at: nat)
    requires Packed(copies, pages, k, off) && AllDiffer(pages) && |copies| + 1 < |pages| && RecLen(r.len) <= LAST_ENTRY
    requires if off + RecLen(r.len) > LAST_ENTRY then k' == k + 1 && at == 0 else k' == k && at == off
    requires r.addr == pages[k'] * PAGE + at
    ensures Packed(copies + [r], pages, k', at + RecLen(r.len))
  {
    var all, off' := copies + [r], at + RecLen(r.len);
    PageAddr(pages[k'], at);
    assert Below(r, pages, k', off') by {
      assert 0 <= k' <= k' && PageOf(r) == pages[k'] && r.addr % PAGE + RecLen(r.len) <= off';
    }
    forall j | 0 <= j < |copies|
      ensures Below(copies[j], pages, k', off') && copies[j].addr != r.addr
    {
      StaysBelow(copies[j], pages, k, off, k', at);
      StaysBelow(copies[j], pages, k, off, k', off');
      NewPlace(copies[j], pages, k', at, r.addr);
    }
    forall i, j | 0 <= i < j < |all|
      ensures Apart(all[i], all[j])
    {
      assert j < |copies| ==> Apart(copies[i], copies[j]);
    }
  }

  lemma CopiesOn(copies: seq<Dentry>, pages: seq<nat>, k: nat, off: nat, j: nat)
    requires Packed(copies, pages, k, off) && j < |copies|
    ensures InPage(copies[j]) && PageOf(copies[j]) in pages[..k + 1]
  {
    var p :| 0 <= p <= k && PageOf(copies[j]) == pages[p]
      && (p < k || copies[j].addr % PAGE + RecLen(copies[j].len) <= off);
    assert pages[..k + 1][p] == pages[p];
  }

  /** The copies followed by what was on the tail page. */
  lemma CompactedLaid(copies: seq<Dentry>, extra: seq<nat>, k: nat, off: nat, end: seq<Dentry>, tail: nat)
    requires Packed(copies, extra, k, off) && AllDiffer(extra) && tail / PAGE !in extra && tail % PAGE <= LAST_ENTRY
    requires forall i :: 0 <= i < |end| ==>
               InPage(end[i]) && PageOf(end[i]) == tail / PAGE && end[i].addr + RecLen(end[i].len) <= tail
    ensures LaidOut(copies + end, extra[..k + 1] + [tail / PAGE], tail)
  {
    var all, pages := copies + end, extra[..k + 1] + [tail / PAGE];
    forall i, j | 0 <= i < j < |pages|
      ensures Unequal(pages[i], pages[j])
    {
      assert j <= k ==> Unequal(extra[i], extra[j]);
    }
    forall i | 0 <= i < |copies|
      ensures InPage(copies[i]) && PageOf(copies[i]) in extra && PageOf(copies[i]) in pages
    {
      CopiesOn(copies, extra, k, off, i);
    }
    assert tail / PAGE == pages[k + 1];
    forall i, j | 0 <= i < j < |all|
      ensures NoEarlier(all[i], all[j], tail / PAGE)
    {
    }
  }

  function Addrs(log: seq<Dentry>): set<nat> {
    set r | r in log :: r.addr
  }

  /** How far the copying pass has come: `copies` are the live ones of the first `i` records, and
      `to` says where on the new pages each went. */
  ghost predicate Copying(log: seq<Dentry>, drop: set<nat>, i: nat, copies: seq<Dentry>, to: map<nat, nat>,
                          extra: seq<nat>) {
    && i <= |log| && copies == MoveLog(Kept(log[..i], drop), to)
    && to.Keys == Addrs(log[..i]) - drop
    && (forall a :: a in to ==> to[a] / PAGE in extra)
  }

  lemma AddrsStep(log: seq<Dentry>, i: nat)
    requires i < |log|
    ensures Addrs(log[..i + 1]) == Addrs(log[..i]) + {log[i].addr}
  {
    var a, b := log[..i], log[..i + 1];
    assert b == a + [log[i]];
  }

  lemma KeptStep(log: seq<Dentry>, drop: set<nat>, i: nat)
    requires i < |log|
    ensures Kept(log[..i + 1], drop) == Kept(log[..i], drop) + (if log[i].addr in drop then [] else [log[i]])
  {
    assert log[..i + 1][..i] == log[..i];
  }

  lemma SkipOne(log: seq<Dentry>, drop: set<nat>, i: nat, copies: seq<Dentry>, to: map<nat, nat>, extra: seq<nat>)
    requires Copying(log, drop, i, copies, to, extra) && i < |log| && log[i].addr in drop
    ensures Copying(log, drop, i + 1, copies, to, extra)
  {
    KeptStep(log, drop, i);
    AddrsStep(log, i);
  }

  lemma MoveMore(a: seq<Dentry>, to: map<nat, nat>, r: Dentry, x: nat)
    requires forall j :: 0 <= j < |a| ==> a[j].addr != r.addr
    ensures MoveLog(a + [r], to[r.addr := x]) == MoveLog(a, to) + [r.(addr := x)]
  {
  }

  lemma CopyOne(log: seq<Dentry>, drop: set<nat>, i: nat, copies: seq<Dentry>, to: map<nat, nat>, extra: seq<nat>,
                x: nat)
    requires Copying(log, drop, i, copies, to, extra) && i < |log| && log[i].addr !in drop && Distinct(log)
    requires x / PAGE in extra
    ensures Copying(log, drop, i + 1, copies + [log[i].(addr := x)], to[log[i].addr := x], extra)
  {
    var r, a := log[i], Kept(log[..i], drop);
    KeptStep(log, drop, i);
    AddrsStep(log, i);
    KeptMembers(log[..i], drop);
    FrontAndEnd(log, i);
    forall j | 0 <= j < |a|
      ensures a[j].addr != r.addr
    {
      assert a[j] in a;
    }
    MoveMore(a, to, r, x);
    assert to[r.addr := x].Keys == to.Keys + {r.addr};
  }

  lemma FrontAndEnd(log: seq<Dentry>, n: nat)
    requires Distinct(log) && n <= |log|
    ensures forall i :: n <= i < |log| ==> log[i].addr !in Addrs(log[..n])
  {
    forall i, r | n <= i < |log| && r in log[..n]
      ensures log[i].addr != r.addr
    {
      var j :| 0 <= j < n && log[..n][j] == r;
      assert Apart(log[j], log[i]);
    }
  }

  /** The result of the pass: the live records of the pages before the last one at their new places,
      and the last page as it was. */
  lemma Compacted(log: seq<Dentry>, drop: set<nat>, n: nat, copies: seq<Dentry>, to: map<nat, nat>, extra: seq<nat>)
    requires Copying(log, drop, n, copies, to, extra) && Distinct(log) && drop <= Addrs(log[..n])
    ensures copies + log[n..] == MoveLog(Kept(log, drop), to)
  {
    var a, b := log[..n], log[n..];
    FrontAndEnd(log, n);
    assert log == a + b;
    assert forall i :: 0 <= i < |b| ==> b[i] == log[n + i];
    KeptConcat(a, b, drop);
    KeptNone(b, drop);
    MoveEnd(Kept(a, drop), b, to);
  }

  lemma MoveEnd(a: seq<Dentry>, b: seq<Dentry>, to: map<nat, nat>)
    requires forall i :: 0 <= i < |b| ==> b[i].addr !in to
    ensures MoveLog(a + b, to) == MoveLog(a, to) + b
  {
  }

  lemma {:induction false} KeptConcat(a: seq<Dentry>, b: seq<Dentry>, drop: set<nat>)
    ensures Kept(a + b, drop) == Kept(a, drop) + Kept(b, drop)
  {
    if b == [] {
      assert a + b == a;
    } else {
      var k := |b| - 1;
      KeptConcat(a, b[..k], drop);
      assert (a + b)[..|a + b| - 1] == a + b[..k];
    }
  }

  lemma {:induction false} KeptNone(log: seq<Dentry>, drop: set<nat>)
    requires forall i :: 0 <= i < |log| ==> log[i].addr !in drop
    ensures Kept(log, drop) == log
  {
    if log != [] {
      KeptNone(log[..|log| - 1], drop);
    }
  }

  /** Flags of records that are not in the log do not matter. */
  lemma FlagsElsewhere(log: seq<Dentry>, invalid: set<nat>, now: set<nat>, tree: map<nat, Dentry>)
    requires forall i :: 0 <= i < |log| ==> (log[i].addr in now <==> log[i].addr in invalid)
    requires Orderly(log, invalid) && Indexed(log, invalid, tree)
    ensures Orderly(log, now) && Indexed(log, now, tree)
    ensures forall i :: 0 <= i < |log| ==> (Live(log[i], now) <==> Live(log[i], invalid))
  {
    forall i, j | 0 <= i < j < |log|
      ensures Compatible(log[i], log[j], now)
    {
      assert Compatible(log[i], log[j], invalid);
    }
    forall n | n in tree
      ensures Live(tree[n], now)
    {
      var i :| 0 <= i < |log| && log[i] == tree[n];
    }
  }

  /** The index once `r` is logged. */
  function Entered(tree: map<nat, Dentry>, r: Dentry): map<nat, Dentry> {
    if Adds(r) then tree[r.name := r] else tree
  }

  lemma AppendFacts(log: seq<Dentry>, invalid: set<nat>, tree: map<nat, Dentry>, pages: seq<nat>, tail: nat, head: nat,
                    r: Dentry, next: nat, pages': seq<nat>)
    requires Sound(log, invalid, tree, pages, tail, head) && next !in pages && RecLen(r.len) <= LAST_ENTRY
    requires r.name !in tree
    requires r.addr == if tail % PAGE + RecLen(r.len) > LAST_ENTRY then next * PAGE else tail
    requires pages' == if tail % PAGE + RecLen(r.len) > LAST_ENTRY then pages + [next] else pages
    ensures Sound(log + [r], invalid - {r.addr}, Entered(tree, r), pages', r.addr + RecLen(r.len), head)
  {
    SoundParts(log, invalid, tree, pages, tail, head);
    AppendedLaid(log, pages, tail, r, next, pages');
    FlagsElsewhere(log, invalid, invalid - {r.addr}, tree);
    Appended(log, invalid - {r.addr}, r);
    EnteredIndexed(log, invalid - {r.addr}, tree, r);
  }

  lemma EnteredIndexed(log: seq<Dentry>, invalid: set<nat>, tree: map<nat, Dentry>, r: Dentry)
    requires Indexed(log, invalid, tree) && r.name !in tree && r.addr !in invalid
    ensures Indexed(log + [r], invalid, Entered(tree, r))
  {
    var all := log + [r];
    assert all[|log|] == r;
    forall n | n in tree
      ensures tree[n] in all
    {
      assert tree[n] in log;
    }
  }

  /** The flag of a superseded record, and its name taken out of the index. */
  lemma RemoveFacts(log: seq<Dentry>, invalid: set<nat>, tree: map<nat, Dentry>, pages: seq<nat>, tail: nat, head: nat,
                    name: nat)
    requires Sound(log, invalid, tree, pages, tail, head) && name in tree && name != DOT && name != DOTDOT
    ensures Sound(log, invalid + {tree[name].addr}, tree - {name}, pages, tail, head)
  {
    SoundParts(log, invalid, tree, pages, tail, head);
    Superseded(log, invalid, tree, tree[name]);
  }

  /** Behind the first record of the head page lies "..". */
  lemma ParentFacts(log: seq<Dentry>, invalid: set<nat>, tree: map<nat, Dentry>, pages: seq<nat>, tail: nat, head: nat,
                    i: nat, r: Dentry)
    requires Sound(log, invalid, tree, pages, tail, head)
    requires i < |log| && log[i].addr == head * PAGE + RecLen(1) && r == log[i].(ino := r.ino) && r.ino > 0
    ensures i == 1 && r.name == DOTDOT
    ensures Sound(log[1 := r], invalid, tree[DOTDOT := r], pages, tail, head)
  {
    SoundParts(log, invalid, tree, pages, tail, head);
    OrderlyIsDistinct(log, invalid);
    SameRecord(log, i, 1);
    Reparented(log, invalid, tree, r);
    ReparentedLaid(log, pages, tail, r);
  }

  lemma ParentIsThere(log: seq<Dentry>, invalid: set<nat>, tree: map<nat, Dentry>, pages: seq<nat>, tail: nat,
                      head: nat)
    requires Sound(log, invalid, tree, pages, tail, head)
    ensures |log| >= 2 && log[1].addr == head * PAGE + RecLen(1) && log[1].name == DOTDOT
    ensures pages != [] && pages[0] == head
  {
    SoundParts(log, invalid, tree, pages, tail, head);
  }

  lemma FirstPage(log: seq<Dentry>, page: nat, tail: nat)
    requires |log| == 2 && log[0].len == 1 && log[1].len == 2
    requires log[0].addr == page * PAGE && log[1].addr == page * PAGE + RecLen(1)
    requires tail == page * PAGE + RecLen(1) + RecLen(2)
    ensures LaidOut(log, [page], tail)
  {
    PageAddr(page, 0);
    PageAddr(page, RecLen(1));
    PageAddr(page, RecLen(1) + RecLen(2));
  }

  /** Pages that come back from the allocator bring no flags with them. */
  lemma ForgetFlags(log: seq<Dentry>, invalid: set<nat>, flags: set<nat>, tree: map<nat, Dentry>, pages: seq<nat>,
                    tail: nat, head: nat, extra: seq<nat>)
    requires Sound(log, invalid, tree, pages, tail, head)
    requires flags == set a | a in invalid && a / PAGE !in extra
    requires forall i :: 0 <= i < |extra| ==> extra[i] !in pages
    ensures Sound(log, flags, tree, pages, tail, head)
  {
    SoundParts(log, invalid, tree, pages, tail, head);
    FlagsElsewhere(log, invalid, flags, tree);
  }

  lemma OrderlyIsDistinct(log: seq<Dentry>, invalid: set<nat>)
    requires Orderly(log, invalid)
    ensures Distinct(log)
  {
    forall i, j | 0 <= i < j < |log|
      ensures Apart(log[i], log[j])
    {
      assert Compatible(log[i], log[j], invalid);
    }
  }

  lemma Reparented(log: seq<Dentry>, invalid: set<nat>, tree: map<nat, Dentry>, r: Dentry)
    requires Orderly(log, invalid) && Indexed(log, invalid, tree) && |log| >= 2 && Live(log[1], invalid)
    requires r == log[1].(ino := r.ino) && r.name == DOTDOT && r.ino > 0
    ensures Orderly(log[1 := r], invalid) && Indexed(log[1 := r], invalid, tree[DOTDOT := r])
  {
    var all := log[1 := r];
    forall i, j | 0 <= i < j < |all|
      ensures Compatible(all[i], all[j], invalid)
    {
      assert Compatible(log[i], log[j], invalid);
    }
    forall i | 0 <= i < |all| && i != 1 && Live(all[i], invalid)
      ensures all[i].name != DOTDOT
    {
      assert i < 1 ==> Compatible(log[i], log[1], invalid);
      assert 1 < i ==> Compatible(log[1], log[i], invalid);
    }
    forall n | n in tree && n != DOTDOT
      ensures tree[n] in all
    {
      var i :| 0 <= i < |log| && log[i] == tree[n];
      assert all[i] == tree[n];
    }
    assert all[1] == r;
  }

  lemma ReparentedLaid(log: seq<Dentry>, pages: seq<nat>, tail: nat, r: Dentry)
    requires LaidOut(log, pages, tail) && |log| >= 2 && r == log[1].(ino := r.ino)
    ensures LaidOut(log[1 := r], pages, tail)
  {
    var all := log[1 := r];
    forall i, j | 0 <= i < j < |all|
      ensures NoEarlier(all[i], all[j], tail / PAGE)
    {
      assert NoEarlier(log[i], log[j], tail / PAGE);
    }
  }

  lemma FastFacts(log: seq<Dentry>, invalid: set<nat>, tree: map<nat, Dentry>, pages: seq<nat>, tail: nat, head: nat,
                  kept: seq<nat>)
    requires Sound(log, invalid, tree, pages, tail, head) && pages != []
    requires kept == LivePages(log, invalid, pages[..|pages| - 1])
    ensures kept != [] ==> kept[0] == head
    ensures pages[|pages| - 1] == tail / PAGE && (kept == [] ==> tail / PAGE == head)
    ensures Sound(Kept(log, OnDeadPages(log, invalid, pages[..|pages| - 1])), invalid, tree, kept + [tail / PAGE], tail,
                  head)
  {
    SoundParts(log, invalid, tree, pages, tail, head);
    var front := pages[..|pages| - 1];
    var drop := OnDeadPages(log, invalid, front);
    KeptOrderly(log, drop, invalid);
    DeadPagesDroppable(log, invalid, front);
    KeptIndexed(log, drop, invalid, tree);
    KeptRooted(log, drop, invalid);
    LivePagesMembers(log, invalid, front);
    PageAddr(head, 0);
    assert !DeadPage(log, invalid, head);
    LiveAndLast(log, invalid, pages, tail, kept);
    KeptLaid(log, drop, pages, kept + [tail / PAGE], tail);
  }

  lemma DeadPagesDroppable(log: seq<Dentry>, invalid: set<nat>, front: seq<nat>)
    requires Orderly(log, invalid)
    ensures Droppable(log, OnDeadPages(log, invalid, front), invalid)
  {
    OrderlyIsDistinct(log, invalid);
    forall i | 0 <= i < |log| && log[i].addr in OnDeadPages(log, invalid, front)
      ensures !Live(log[i], invalid)
    {
      var j :| 0 <= j < |log| && DeadPage(log, invalid, PageOf(log[j])) && log[j].addr == log[i].addr;
      SameRecord(log, i, j);
    }
  }

  lemma LiveAndLast(log: seq<Dentry>, invalid: set<nat>, pages: seq<nat>, tail: nat, kept: seq<nat>)
    requires LaidOut(log, pages, tail) && kept == LivePages(log, invalid, pages[..|pages| - 1])
    ensures AllDiffer(kept + [tail / PAGE])
    ensures forall i :: 0 <= i < |log| && log[i].addr !in OnDeadPages(log, invalid, pages[..|pages| - 1])
                        ==> PageOf(log[i]) in kept + [tail / PAGE]
  {
    var front, now, last := pages[..|pages| - 1], kept + [tail / PAGE], |pages| - 1;
    assert AllDiffer(front) by {
      forall i, j | 0 <= i < j < last
        ensures Unequal(front[i], front[j])
      {
        assert Unequal(pages[i], pages[j]);
      }
    }
    LivePagesMembers(log, invalid, front);
    forall i, j | 0 <= i < j < |now|
      ensures Unequal(now[i], now[j])
    {
      if j < |kept| {
        assert Unequal(kept[i], kept[j]);
      } else {
        assert kept[i] in front;
        var x :| 0 <= x < last && front[x] == kept[i];
        assert Unequal(pages[x], pages[last]);
      }
    }
    assert pages == front + [tail / PAGE];
    forall i | 0 <= i < |log| && log[i].addr !in OnDeadPages(log, invalid, front)
      ensures PageOf(log[i]) in now
    {
      assert PageOf(log[i]) in pages;
      if PageOf(log[i]) in front {
        assert PageOf(log[i]) in kept;
      }
    }
  }

  /** The addresses of superseded and delete records before the last page. */
  function DeadBefore(log: seq<Dentry>, invalid: set<nat>, last: nat): set<nat> {
    set i | 0 <= i < |log| && PageOf(log[i]) != last && !Live(log[i], invalid) :: log[i].addr
  }

  lemma DeadIff(log: seq<Dentry>, invalid: set<nat>, last: nat, i: nat)
    requires Distinct(log) && i < |log|
    ensures log[i].addr in DeadBefore(log, invalid, last) <==> PageOf(log[i]) != last && !Live(log[i], invalid)
  {
    if log[i].addr in DeadBefore(log, invalid, last) {
      var j :| 0 <= j < |log| && PageOf(log[j]) != last && !Live(log[j], invalid) && log[j].addr == log[i].addr;
      SameRecord(log, i, j);
    }
  }

  lemma DeadBeforeFront(log: seq<Dentry>, invalid: set<nat>, last: nat, n: nat)
    requires n <= |log| && forall i :: n <= i < |log| ==> PageOf(log[i]) == last
    ensures DeadBefore(log, invalid, last) <= Addrs(log[..n])
  {
    forall a | a in DeadBefore(log, invalid, last)
      ensures a in Addrs(log[..n])
    {
      var i :| 0 <= i < |log| && PageOf(log[i]) != last && !Live(log[i], invalid) && log[i].addr == a;
      assert log[..n][i] == log[i];
    }
  }

  /** The copying pass: `n` records passed, and where the next copy goes. */
  datatype Pass = Pass(n: nat, copies: seq<Dentry>, to: map<nat, nat>, k: nat, off: nat)

  ghost predicate Passing(log: seq<Dentry>, invalid: set<nat>, last: nat, extra: seq<nat>, c: Pass) {
    forall x {:trigger D.Inside(D.TheLoop, x)} :: D.Inside(D.TheLoop, x) ==> PassingLog(log, invalid, last, extra, c)
  }

  ghost predicate PassingLog(log: seq<Dentry>, invalid: set<nat>, last: nat, extra: seq<nat>, c: Pass) {
    && Distinct(log) && AllDiffer(extra) && |extra| > |log| && |c.copies| <= c.n
    && Copying(log, DeadBefore(log, invalid, last), c.n, c.copies, c.to, extra) && Packed(c.copies, extra, c.k, c.off)
    && (forall i :: 0 <= i < c.n ==> PageOf(log[i]) != last)
  }

  lemma PassingParts(log: seq<Dentry>, invalid: set<nat>, last: nat, extra: seq<nat>, c: Pass)
    requires Passing(log, invalid, last, extra, c)
    ensures PassingLog(log, invalid, last, extra, c)
  {
    assert D.Inside(D.TheLoop, 0);
  }

  lemma StartPass(log: seq<Dentry>, invalid: set<nat>, last: nat, extra: seq<nat>)
    requires Orderly(log, invalid) && AllDiffer(extra) && |extra| > |log|
    ensures Passing(log, invalid, last, extra, Pass(0, [], map[], 0, 0))
  {
    OrderlyIsDistinct(log, invalid);
  }

  lemma SkipStep(log: seq<Dentry>, invalid: set<nat>, last: nat, extra: seq<nat>, c: Pass)
    requires Passing(log, invalid, last, extra, c) && c.n < |log| && PageOf(log[c.n]) != last
    requires !Live(log[c.n], invalid)
    ensures Passing(log, invalid, last, extra, c.(n := c.n + 1))
  {
    PassingParts(log, invalid, last, extra, c);
    DeadIff(log, invalid, last, c.n);
    SkipOne(log, DeadBefore(log, invalid, last), c.n, c.copies, c.to, extra);
  }

  lemma CopyStep(log: seq<Dentry>, invalid: set<nat>, last: nat, extra: seq<nat>, c: Pass, k: nat, at: nat, x: nat)
    requires Passing(log, invalid, last, extra, c) && c.n < |log| && PageOf(log[c.n]) != last
    requires Live(log[c.n], invalid) && InPage(log[c.n])
    requires if c.off + RecLen(log[c.n].len) > LAST_ENTRY then k == c.k + 1 && at == 0 else k == c.k && at == c.off
    requires k < |extra| && x == extra[k] * PAGE + at
    ensures Passing(log, invalid, last, extra,
                    Pass(c.n + 1, c.copies + [log[c.n].(addr := x)], c.to[log[c.n].addr := x], k,
                         at + RecLen(log[c.n].len)))
  {
    var r := log[c.n];
    var d := Pass(c.n + 1, c.copies + [r.(addr := x)], c.to[r.addr := x], k, at + RecLen(r.len));
    NextCopies(log, invalid, last, extra, c, k, at, x, d);
    NextPacked(log, invalid, last, extra, c, k, at, x, d);
    MakePassing(log, invalid, last, extra, d);
  }

  lemma NextCopies(log: seq<Dentry>, invalid: set<nat>, last: nat, extra: seq<nat>, c: Pass, k: nat, at: nat, x: nat,
                   d: Pass)
    requires Passing(log, invalid, last, extra, c) && c.n < |log| && PageOf(log[c.n]) != last && Live(log[c.n], invalid)
    requires k < |extra| && at < PAGE && x == extra[k] * PAGE + at
    requires d.n == c.n + 1 && d.copies == c.copies + [log[c.n].(addr := x)] && d.to == c.to[log[c.n].addr := x]
    ensures Copying(log, DeadBefore(log, invalid, last), d.n, d.copies, d.to, extra)
    ensures Distinct(log) && |d.copies| <= d.n && forall i :: 0 <= i < d.n ==> PageOf(log[i]) != last
  {
    PassingParts(log, invalid, last, extra, c);
    CopiesStep(log, invalid, last, extra, c, k, at, x);
  }

  lemma NextPacked(log: seq<Dentry>, invalid: set<nat>, last: nat, extra: seq<nat>, c: Pass, k: nat, at: nat, x: nat,
                   d: Pass)
    requires Passing(log, invalid, last, extra, c) && c.n < |log| && InPage(log[c.n])
    requires if c.off + RecLen(log[c.n].len) > LAST_ENTRY then k == c.k + 1 && at == 0 else k == c.k && at == c.off
    requires k < |extra| && x == extra[k] * PAGE + at
    requires d.copies == c.copies + [log[c.n].(addr := x)] && d.k == k && d.off == at + RecLen(log[c.n].len)
    ensures Packed(d.copies, extra, d.k, d.off) && AllDiffer(extra) && |extra| > |log|
  {
    PassingParts(log, invalid, last, extra, c);
    PackNext(c.copies, extra, c.k, c.off, log[c.n].(addr := x), k, at);
  }

  lemma CopiesStep(log: seq<Dentry>, invalid: set<nat>, last: nat, extra: seq<nat>, c: Pass, k: nat, at: nat, x: nat)
    requires Distinct(log) && Copying(log, DeadBefore(log, invalid, last), c.n, c.copies, c.to, extra)
    requires c.n < |log| && PageOf(log[c.n]) != last && Live(log[c.n], invalid)
    requires k < |extra| && at < PAGE && x == extra[k] * PAGE + at
    ensures Copying(log, DeadBefore(log, invalid, last), c.n + 1, c.copies + [log[c.n].(addr := x)],
                    c.to[log[c.n].addr := x], extra)
  {
    DeadIff(log, invalid, last, c.n);
    PageAddr(extra[k], at);
    CopyOne(log, DeadBefore(log, invalid, last), c.n, c.copies, c.to, extra, x);
  }

  lemma MakePassing(log: seq<Dentry>, invalid: set<nat>, last: nat, extra: seq<nat>, c: Pass)
    requires PassingLog(log, invalid, last, extra, c)
    ensures Passing(log, invalid, last, extra, c)
  {
  }

  lemma PassHasRoom(log: seq<Dentry>, invalid: set<nat>, last: nat, extra: seq<nat>, c: Pass)
    requires Passing(log, invalid, last, extra, c)
    ensures c.n <= |log| && c.k < |extra| && (c.n < |log| ==> c.k + 1 < |extra|)
  {
    PassingParts(log, invalid, last, extra, c);
  }

  lemma CopiesElsewhere(copies: seq<Dentry>, extra: seq<nat>, k: nat, off: nat, end: seq<Dentry>, last: nat)
    requires Packed(copies, extra, k, off) && last !in extra && Distinct(end)
    requires forall i :: 0 <= i < |end| ==> PageOf(end[i]) == last
    ensures Distinct(copies + end)
  {
    var all := copies + end;
    forall i, j | 0 <= i < j < |all|
      ensures Apart(all[i], all[j])
    {
      assert j < |copies| ==> Apart(copies[i], copies[j]);
      assert |copies| <= i ==> Apart(end[i - |copies|], end[j - |copies|]);
      if i < |copies| <= j {
        CopiesOn(copies, extra, k, off, i);
        assert PageOf(all[i]) in extra && PageOf(all[j]) == last;
      }
    }
  }

  /** The copies and the records of the tail page have addresses of their own. */
  lemma CompactMovable(log: seq<Dentry>, invalid: set<nat>, extra: seq<nat>, last: nat, c: Pass)
    requires PassingLog(log, invalid, last, extra, c) && last !in extra
    requires forall i :: c.n <= i < |log| ==> PageOf(log[i]) == last
    requires forall a :: a in invalid ==> a / PAGE !in extra
    ensures var drop := DeadBefore(log, invalid, last);
            c.copies + log[c.n..] == MoveLog(Kept(log, drop), c.to) && Movable(Kept(log, drop), c.to, invalid)
  {
    var drop := DeadBefore(log, invalid, last);
    assert Distinct(c.copies + log[c.n..]) by {
      CompactDistinct(log, extra, last, c);
    }
    assert c.copies + log[c.n..] == MoveLog(Kept(log, drop), c.to) by {
      DeadBeforeFront(log, invalid, last, c.n);
      Compacted(log, drop, c.n, c.copies, c.to, extra);
    }
    CompactLive(log, invalid, extra, last, c, drop);
    DistinctMoves(Kept(log, drop), c.to, c.copies + log[c.n..]);
  }

  lemma CompactDistinct(log: seq<Dentry>, extra: seq<nat>, last: nat, c: Pass)
    requires Distinct(log) && Packed(c.copies, extra, c.k, c.off) && last !in extra && c.n <= |log|
    requires forall i :: c.n <= i < |log| ==> PageOf(log[i]) == last
    ensures Distinct(c.copies + log[c.n..])
  {
    var end := log[c.n..];
    EndDistinct(log, c.n);
    assert forall i :: 0 <= i < |end| ==> end[i] == log[c.n + i];
    CopiesElsewhere(c.copies, extra, c.k, c.off, end, last);
  }

  /** The new log as a whole. */
  lemma CompactIsMoved(log: seq<Dentry>, invalid: set<nat>, extra: seq<nat>, last: nat, c: Pass)
    requires Passing(log, invalid, last, extra, c) && LastComesLast(log, last) && c.n <= |log|
    requires c.n < |log| ==> PageOf(log[c.n]) == last
    ensures c.copies + log[c.n..] == MoveLog(Kept(log, DeadBefore(log, invalid, last)), c.to)
  {
    PassingParts(log, invalid, last, extra, c);
    RestIsLast(log, last, c.n);
    DeadBeforeFront(log, invalid, last, c.n);
    Compacted(log, DeadBefore(log, invalid, last), c.n, c.copies, c.to, extra);
  }

  lemma EndDistinct(log: seq<Dentry>, n: nat)
    requires Distinct(log) && n <= |log|
    ensures Distinct(log[n..])
  {
    var end := log[n..];
    forall i, j | 0 <= i < j < |end|
      ensures Apart(end[i], end[j])
    {
      assert Apart(log[n + i], log[n + j]);
    }
  }

  lemma DistinctMoves(kept: seq<Dentry>, to: map<nat, nat>, all: seq<Dentry>)
    requires all == MoveLog(kept, to) && Distinct(all)
    ensures forall i, j :: 0 <= i < j < |kept| ==> Moved(kept[i], to).addr != Moved(kept[j], to).addr
  {
    forall i, j | 0 <= i < j < |kept|
      ensures Moved(kept[i], to).addr != Moved(kept[j], to).addr
    {
      assert all[i] == Moved(kept[i], to) && all[j] == Moved(kept[j], to);
      assert Apart(all[i], all[j]);
    }
  }

  /** Only live records are copied, and copies have no flags. */
  lemma CompactLive(log: seq<Dentry>, invalid: set<nat>, extra: seq<nat>, last: nat, c: Pass, drop: set<nat>)
    requires Distinct(log) && drop == DeadBefore(log, invalid, last) && c.n <= |log|
    requires Copying(log, drop, c.n, c.copies, c.to, extra)
    requires forall i :: 0 <= i < c.n ==> PageOf(log[i]) != last
    requires forall a :: a in invalid ==> a / PAGE !in extra
    ensures forall i :: 0 <= i < |Kept(log, drop)| && Kept(log, drop)[i].addr in c.to ==>
              Live(Kept(log, drop)[i], invalid) && c.to[Kept(log, drop)[i].addr] !in invalid
  {
    var kept := Kept(log, drop);
    KeptMembers(log, drop);
    FrontAndEnd(log, c.n);
    forall i | 0 <= i < |kept| && kept[i].addr in c.to
      ensures Live(kept[i], invalid) && c.to[kept[i].addr] !in invalid
    {
      assert kept[i] in kept;
      var x :| 0 <= x < |log| && log[x] == kept[i];
      DeadIff(log, invalid, last, x);
    }
  }

  lemma CompactIndex(log: seq<Dentry>, invalid: set<nat>, tree: map<nat, Dentry>, extra: seq<nat>, last: nat, c: Pass)
    requires Orderly(log, invalid) && Indexed(log, invalid, tree) && PassingLog(log, invalid, last, extra, c)
    requires last !in extra
    requires forall i :: c.n <= i < |log| ==> PageOf(log[i]) == last
    requires forall a :: a in invalid ==> a / PAGE !in extra
    ensures Orderly(c.copies + log[c.n..], invalid) && Indexed(c.copies + log[c.n..], invalid, MoveTree(tree, c.to))
  {
    var drop := DeadBefore(log, invalid, last);
    CompactMovable(log, invalid, extra, last, c);
    DeadDroppable(log, invalid, last);
    KeptOrderly(log, drop, invalid);
    KeptIndexed(log, drop, invalid, tree);
    MovedOrderly(Kept(log, drop), c.to, invalid);
    MovedIndexed(Kept(log, drop), c.to, invalid, tree);
  }

  lemma DeadDroppable(log: seq<Dentry>, invalid: set<nat>, last: nat)
    requires Orderly(log, invalid)
    ensures Droppable(log, DeadBefore(log, invalid, last), invalid)
  {
    OrderlyIsDistinct(log, invalid);
    forall i | 0 <= i < |log| && log[i].addr in DeadBefore(log, invalid, last)
      ensures !Live(log[i], invalid)
    {
      DeadIff(log, invalid, last, i);
    }
  }

  lemma CompactRooted(log: seq<Dentry>, invalid: set<nat>, head: nat, extra: seq<nat>, last: nat, c: Pass)
    requires Orderly(log, invalid) && Rooted(log, invalid, head) && PassingLog(log, invalid, last, extra, c) && 2 <= c.n
    requires forall a :: a in invalid ==> a / PAGE !in extra
    ensures Rooted(c.copies + log[c.n..], invalid, extra[0])
  {
    var drop, front := DeadBefore(log, invalid, last), log[..c.n];
    DeadDroppable(log, invalid, last);
    assert Droppable(front, drop, invalid);
    KeptRooted(front, drop, invalid);
    CopiesOn(c.copies, extra, c.k, c.off, 0);
    CopiesOn(c.copies, extra, c.k, c.off, 1);
    assert c.copies[0] == Moved(log[0], c.to) && c.copies[1] == Moved(log[1], c.to);
  }

  /** The first two records are on the head page. */
  lemma FirstTwo(log: seq<Dentry>, invalid: set<nat>, pages: seq<nat>, tail: nat, head: nat)
    requires LaidOut(log, pages, tail) && |pages| > 1 && pages[0] == head && Rooted(log, invalid, head)
    ensures PageOf(log[0]) != tail / PAGE && PageOf(log[1]) != tail / PAGE
  {
    PageAddr(head, 0);
    PageAddr(head, RecLen(1));
    assert Unequal(pages[0], pages[|pages| - 1]);
  }

  ghost predicate Sound(log: seq<Dentry>, invalid: set<nat>, tree: map<nat, Dentry>, pages: seq<nat>, tail: nat,
                        head: nat) {
    forall k {:trigger D.Inside(D.TheFile, k)} :: D.Inside(D.TheFile, k) ==>
      SoundDir(log, invalid, tree, pages, tail, head)
  }

  lemma SoundParts(log: seq<Dentry>, invalid: set<nat>, tree: map<nat, Dentry>, pages: seq<nat>, tail: nat, head: nat)
    requires Sound(log, invalid, tree, pages, tail, head)
    ensures SoundDir(log, invalid, tree, pages, tail, head)
  {
    assert D.Inside(D.TheFile, 0);
  }

  /** The invariant of a mounted directory. */
  ghost predicate SoundDir(log: seq<Dentry>, invalid: set<nat>, tree: map<nat, Dentry>, pages: seq<nat>, tail: nat,
                           head: nat) {
    && Orderly(log, invalid) && Indexed(log, invalid, tree)
    && LaidOut(log, pages, tail) && pages[0] == head && Rooted(log, invalid, head)
  }

  lemma CompactFacts(log: seq<Dentry>, invalid: set<nat>, tree: map<nat, Dentry>, pages: seq<nat>, tail: nat, head: nat,
                     extra: seq<nat>, c: Pass)
    requires Sound(log, invalid, tree, pages, tail, head) && |pages| > 1
    requires forall i :: 0 <= i < |extra| ==> extra[i] !in pages
    requires Passing(log, invalid, tail / PAGE, extra, c) && c.n <= |log| && c.k < |extra|
    requires c.n < |log| ==> PageOf(log[c.n]) == tail / PAGE
    requires forall a :: a in invalid ==> a / PAGE !in extra
    ensures Sound(c.copies + log[c.n..], invalid, MoveTree(tree, c.to), extra[..c.k + 1] + [tail / PAGE], tail,
                  extra[0])
    ensures c.copies + log[c.n..] == MoveLog(Kept(log, DeadBefore(log, invalid, tail / PAGE)), c.to)
  {
    SoundParts(log, invalid, tree, pages, tail, head);
    var last := tail / PAGE;
    assert last !in extra by {
      assert last == pages[|pages| - 1];
    }
    RestIsLast(log, last, c.n);
    CompactIndexed(log, invalid, tree, extra, last, c);
    CompactFront(log, invalid, pages, tail, head, extra, c);
    CompactLaid(log, pages, tail, invalid, extra, c);
    CompactIsMoved(log, invalid, extra, last, c);
  }

  lemma RestIsLast(log: seq<Dentry>, last: nat, n: nat)
    requires LastComesLast(log, last) && (n < |log| ==> PageOf(log[n]) == last)
    ensures forall i :: n <= i < |log| ==> PageOf(log[i]) == last
  {
    forall i | n <= i < |log|
      ensures PageOf(log[i]) == last
    {
      assert n < i ==> NoEarlier(log[n], log[i], last);
    }
  }

  lemma CompactIndexed(log: seq<Dentry>, invalid: set<nat>, tree: map<nat, Dentry>, extra: seq<nat>, last: nat, c: Pass)
    requires Orderly(log, invalid) && Indexed(log, invalid, tree) && last !in extra
    requires Passing(log, invalid, last, extra, c) && c.n <= |log|
    requires forall i :: c.n <= i < |log| ==> PageOf(log[i]) == last
    requires forall a :: a in invalid ==> a / PAGE !in extra
    ensures Orderly(c.copies + log[c.n..], invalid) && Indexed(c.copies + log[c.n..], invalid, MoveTree(tree, c.to))
  {
    PassingParts(log, invalid, last, extra, c);
    CompactIndex(log, invalid, tree, extra, last, c);
  }

  lemma CompactFront(log: seq<Dentry>, invalid: set<nat>, pages: seq<nat>, tail: nat, head: nat, extra: seq<nat>,
                     c: Pass)
    requires Orderly(log, invalid) && LaidOut(log, pages, tail) && |pages| > 1 && pages[0] == head
    requires Rooted(log, invalid, head)
    requires Passing(log, invalid, tail / PAGE, extra, c) && c.n <= |log| && c.k < |extra|
    requires forall i :: c.n <= i < |log| ==> PageOf(log[i]) == tail / PAGE
    requires forall a :: a in invalid ==> a / PAGE !in extra
    ensures Rooted(c.copies + log[c.n..], invalid, extra[0])
  {
    FirstTwo(log, invalid, pages, tail, head);
    PassingParts(log, invalid, tail / PAGE, extra, c);
    CompactRooted(log, invalid, head, extra, tail / PAGE, c);
  }

  lemma CompactLaid(log: seq<Dentry>, pages: seq<nat>, tail: nat, invalid: set<nat>, extra: seq<nat>, c: Pass)
    requires LaidOut(log, pages, tail) && tail / PAGE !in extra
    requires Passing(log, invalid, tail / PAGE, extra, c) && c.n <= |log| && c.k < |extra|
    requires forall i :: c.n <= i < |log| ==> PageOf(log[i]) == tail / PAGE
    ensures LaidOut(c.copies + log[c.n..], extra[..c.k + 1] + [tail / PAGE], tail)
  {
    var end := log[c.n..];
    PassingParts(log, invalid, tail / PAGE, extra, c);
    assert forall i :: 0 <= i < |end| ==> end[i] == log[c.n + i];
    CompactedLaid(c.copies, extra, c.k, c.off, end, tail);
  }

  lemma MovedNames(tree: map<nat, Dentry>, to: map<nat, nat>)
    ensures SameNames(tree, MoveTree(tree, to))
  {
  }

  /** The same names for the same inodes, perhaps at other addresses. */
  ghost predicate SameNames(tree: map<nat, Dentry>, now: map<nat, Dentry>) {
    now.Keys == tree.Keys && forall n :: n in tree ==> now[n] == tree[n].(addr := now[n].addr)
  }

  // ---------------------------------------------------------------------------------------
  // Deletions that a collection drops
  // ---------------------------------------------------------------------------------------

  const SELF := Dentry(4096, DOT, 1, 7)
  const PARENT := Dentry(4128, DOTDOT, 2, 6)
  const FILE := Dentry(4160, 9, 4, 8)
  const UNLINK := Dentry(8192, 9, 4, 0)

  // Page 1 holds the first two records and a file, page 2 the deletion of the file, page 3 the tail.
  // Page 1 need not be full: a thorough collection leaves such pages behind.

  const OTHER := Dentry(12288, 10, 4, 11)

  function OneDeleted(): seq<Dentry> {
    [SELF, PARENT, FILE, UNLINK, OTHER]
  }

  function OneLeft(): map<nat, Dentry> {
    map[DOT := SELF, DOTDOT := PARENT, 10 := OTHER]
  }

  lemma OneDeletedIsLaidOut()
    ensures LaidOut(OneDeleted(), [1, 2, 3], 12328)
  {
    var log, pages := OneDeleted(), [1, 2, 3];
    assert forall i, j :: 0 <= i < j < |pages| ==> Unequal(pages[i], pages[j]);
    assert forall i, j :: 0 <= i < j < |log| ==> NoEarlier(log[i], log[j], 3);
  }

  lemma OneDeletedIsSound()
    ensures Sound(OneDeleted(), {FILE.addr}, OneLeft(), [1, 2, 3], 12328, 1)
  {
    var log := OneDeleted();
    OneDeletedIsLaidOut();
    assert Orderly(log, {FILE.addr}) by {
      assert forall i, j :: 0 <= i < j < |log| ==> Compatible(log[i], log[j], {FILE.addr});
    }
    assert SELF in log && PARENT in log && OTHER in log;
  }

  /** The page with the deletion, and only that one, is dead. */
  lemma DeletionIsDropped(log: seq<Dentry>, flags: set<nat>)
    requires |log| >= 4 && log[0] == SELF && log[3] == UNLINK && FILE.addr in flags && SELF.addr !in flags
    requires forall i :: 0 <= i < 3 ==> PageOf(log[i]) == 1
    requires forall i :: 4 <= i < |log| ==> PageOf(log[i]) == 3
    ensures OnDeadPages(log, flags, [1, 2]) == {UNLINK.addr}
  {
    assert !DeadPage(log, flags, 1);
    assert DeadPage(log, flags, 2);
  }

  lemma {:induction false} KeptBut(log: seq<Dentry>, k: nat, drop: set<nat>)
    requires k < |log| && drop == {log[k].addr} && Distinct(log)
    ensures Kept(log, drop) == log[..k] + log[k + 1..]
  {
    assert log == log[..k] + [log[k]] + log[k + 1..];
    KeptConcat(log[..k] + [log[k]], log[k + 1..], drop);
    KeptConcat(log[..k], [log[k]], drop);
    assert [log[k]][..0] == [];
    assert Kept([log[k]], drop) == [];
    forall i | 0 <= i < |log| && i != k
      ensures log[i].addr !in drop
    {
      assert i < k ==> Apart(log[i], log[k]);
      assert k < i ==> Apart(log[k], log[i]);
    }
    KeptNone(log[..k], drop);
    KeptNone(log[k + 1..], drop);
  }

  /** A collection drops the page with the delete record while the flag of the file is not in NVMM
      yet: the file is back after a crash. */
  lemma CollectedDeleteResurrects()
    ensures Sound(OneDeleted(), {FILE.addr}, OneLeft(), [1, 2, 3], 12328, 1) && FILE.name !in OneLeft()
    ensures OnDeadPages(OneDeleted(), {FILE.addr}, [1, 2]) == {UNLINK.addr}
    ensures Kept(OneDeleted(), {UNLINK.addr}) == [SELF, PARENT, FILE, OTHER]
    ensures Replay([SELF, PARENT, FILE, OTHER], {}) == State(OneLeft()[FILE.name := FILE], true)
  {
    var log := OneDeleted();
    OneDeletedIsSound();
    SoundParts(log, {FILE.addr}, OneLeft(), [1, 2, 3], 12328, 1);
    DeletionIsDropped(log, {FILE.addr});
    OrderlyIsDistinct(log, {FILE.addr});
    KeptBut(log, 3, {UNLINK.addr});
    ReplayFour(SELF, PARENT, FILE, OTHER);
  }

  lemma ReplayThree(a: Dentry, b: Dentry, c: Dentry)
    requires Adds(a) && Adds(b) && Adds(c) && a.name != b.name && a.name != c.name && b.name != c.name
    ensures Replay([a, b, c], {}) == State(map[a.name := a, b.name := b, c.name := c], true)
  {
    ReplaySnoc([], a, {});
    ReplaySnoc([a], b, {});
    ReplaySnoc([a, b], c, {});
    assert [] + [a] == [a] && [a] + [b] == [a, b] && [a, b] + [c] == [a, b, c];
  }

  lemma ReplayFour(a: Dentry, b: Dentry, c: Dentry, d: Dentry)
    requires Adds(a) && Adds(b) && Adds(c) && a.name != b.name && a.name != c.name && b.name != c.name
    requires Adds(d) && d.name != a.name && d.name != b.name
    ensures Replay([a, b, c, d], {})
            == if d.name == c.name then State(map[a.name := a, b.name := b, c.name := c], false)
               else State(map[a.name := a, b.name := b, c.name := c, d.name := d], true)
  {
    ReplayThree(a, b, c);
    ReplaySnoc([a, b, c], d, {});
    assert [a, b, c] + [d] == [a, b, c, d];
  }

  // The file was created and deleted once more on the tail page.

  const FILE2 := Dentry(12288, 9, 4, 11)
  const UNLINK2 := Dentry(12328, 9, 4, 0)

  function TwoDeleted(): seq<Dentry> {
    [SELF, PARENT, FILE, UNLINK, FILE2, UNLINK2]
  }

  lemma TwoDeletedIsLaidOut()
    ensures LaidOut(TwoDeleted(), [1, 2, 3], 12368)
  {
    var log, pages := TwoDeleted(), [1, 2, 3];
    assert forall i, j :: 0 <= i < j < |pages| ==> Unequal(pages[i], pages[j]);
    assert forall i, j :: 0 <= i < j < |log| ==> NoEarlier(log[i], log[j], 3);
  }

  lemma TwoDeletedIsOrderly()
    ensures Orderly(TwoDeleted(), {FILE.addr, FILE2.addr})
  {
    var log := TwoDeleted();
    assert forall i, j :: 0 <= i < j < |log| ==> Compatible(log[i], log[j], {FILE.addr, FILE2.addr});
  }

  lemma TwoDeletedIsSound()
    ensures Sound(TwoDeleted(), {FILE.addr, FILE2.addr}, map[DOT := SELF, DOTDOT := PARENT], [1, 2, 3], 12368, 1)
  {
    TwoDeletedIsLaidOut();
    TwoDeletedIsOrderly();
    assert SELF in TwoDeleted() && PARENT in TwoDeleted();
  }

  /** Without the deletion between them and with both flags lost, two records of one name end the
      mount, although the last deletion is there. */
  lemma TwoLostFlagsEndReplay()
    ensures Sound(TwoDeleted(), {FILE.addr, FILE2.addr}, map[DOT := SELF, DOTDOT := PARENT], [1, 2, 3], 12368, 1)
    ensures OnDeadPages(TwoDeleted(), {FILE.addr, FILE2.addr}, [1, 2]) == {UNLINK.addr}
    ensures Kept(TwoDeleted(), {UNLINK.addr}) == [SELF, PARENT, FILE, FILE2, UNLINK2]
    ensures !Replay([SELF, PARENT, FILE, FILE2, UNLINK2], {}).ok
  {
    var log, flags := TwoDeleted(), {FILE.addr, FILE2.addr};
    TwoDeletedIsSound();
    SoundParts(log, flags, map[DOT := SELF, DOTDOT := PARENT], [1, 2, 3], 12368, 1);
    DeletionIsDropped(log, flags);
    OrderlyIsDistinct(log, flags);
    KeptBut(log, 3, {UNLINK.addr});
    ReplayFour(SELF, PARENT, FILE, FILE2);
    ReplaySnoc([SELF, PARENT, FILE, FILE2], UNLINK2, {});
    assert [SELF, PARENT, FILE, FILE2] + [UNLINK2] == [SELF, PARENT, FILE, FILE2, UNLINK2];
  }

  // ---------------------------------------------------------------------------------------
  // The directory
  // ---------------------------------------------------------------------------------------

  class Dir {
    // NVMM
    var head: nat
    var pages: seq<nat>
    var tail: nat
    var log: seq<Dentry>
    var invalid: set<nat>
    // DRAM
    var tree: map<nat, Dentry>

    ghost predicate Valid()
      reads this
    {
      Sound(log, invalid, tree, pages, tail, head)
    }

    /** nova_append_dir_init_entries: "." and ".." at the start of the first page. */
    constructor (self: nat, parent: nat, page: nat)
      requires self > 0 && parent > 0
      ensures Valid() && tree.Keys == {DOT, DOTDOT} && tree[DOT].ino == self && tree[DOTDOT].ino == parent
      ensures |log| == 2 && log[0] == tree[DOT] && log[1] == tree[DOTDOT] && head == page
    {
      var at := page * PAGE;
      var a, b := Dentry(at, DOT, 1, self), Dentry(at + RecLen(1), DOTDOT, 2, parent);
      head, pages, tail := page, [page], at + RecLen(1) + RecLen(2);
      log, invalid, tree := [a, b], {}, map[DOT := a, DOTDOT := b];
      new;
      FirstPage(log, page, tail);
    }

    /** nova_get_append_head and the store of the record: at the tail if it fits there, else on page
        `next`. The name enters the index if the record adds it. */
    method Append(name: nat, len: nat, ino: nat, next: nat) returns (r: Dentry)
      requires Valid() && len <= 255 && next !in pages && name !in tree
      modifies this
      ensures Valid() && head == old(head) && r == Dentry(r.addr, name, len, ino)
      ensures log == old(log) + [r] && tree == Entered(old(tree), r) && invalid == old(invalid) - {r.addr}
      ensures var full := old(tail) % PAGE + RecLen(len) > LAST_ENTRY;
              && r.addr == (if full then next * PAGE else old(tail)) && tail == r.addr + RecLen(len)
              && pages == if full then old(pages) + [next] else old(pages)
    {
      ghost var was := pages;
      var size := RecLen(len);
      var at := tail;
      if tail % PAGE + size > LAST_ENTRY {
        pages := pages + [next];
        at := next * PAGE;
      }
      r := Dentry(at, name, len, ino);
      AppendFacts(log, invalid, tree, was, tail, head, r, next, pages);
      invalid := invalid - {r.addr};
      log := log + [r];
      tail := r.addr + RecLen(r.len);
      tree := Entered(tree, r);
    }

    /** nova_add_dentry: a name that is taken is not inserted, and its record stays beyond the tail. */
    method AddDentry(name: nat, len: nat, ino: nat, next: nat) returns (ok: bool, r: Dentry)
      requires Valid() && ino > 0 && len <= 255 && next !in pages
      modifies this
      ensures Valid() && head == old(head) && (ok <==> name !in old(tree))
      ensures !ok ==> unchanged(this)
      ensures ok ==> r == Dentry(r.addr, name, len, ino) && log == old(log) + [r] && tree == old(tree)[name := r]
    {
      if name in tree {
        return false, tree[name];
      }
      ok := true;
      r := Append(name, len, ino, next);
    }

    /** nova_remove_dentry, for a name that is not one of the first two. The removal is logged
        whether or not the name is there. */
    method RemoveDentry(name: nat, len: nat, next: nat) returns (r: Dentry)
      requires Valid() && name != DOT && name != DOTDOT && len <= 255 && next !in pages
      modifies this
      ensures Valid() && head == old(head) && tree == old(tree) - {name}
      ensures r == Dentry(r.addr, name, len, 0) && log == old(log) + [r]
      ensures invalid == old(invalid) + (if name in old(tree) then {old(tree)[name].addr} else {}) - {r.addr}
    {
      if name in tree {
        RemoveFacts(log, invalid, tree, pages, tail, head, name);
        invalid := invalid + {tree[name].addr};
        tree := tree - {name};
      }
      r := Append(name, len, 0, next);
    }

    /** The parent changes: rename stores its number in place, in the record that it finds behind the
        first one on the head page. */
    method SetParent(parent: nat)
      requires Valid() && parent > 0
      modifies `log, `tree
      ensures Valid() && |log| == |old(log)| >= 2 && old(log)[1].name == DOTDOT
      ensures log == old(log)[1 := old(log)[1].(ino := parent)] && tree == old(tree)[DOTDOT := log[1]]
    {
      var at := head * PAGE + RecLen(1);
      ParentIsThere(log, invalid, tree, pages, tail, head);
      var i :| 0 <= i < |log| && log[i].addr == at;
      var r := log[i].(ino := parent);
      ParentFacts(log, invalid, tree, pages, tail, head, i, r);
      log := log[i := r];
      tree := tree[r.name := r];
    }

    /** nova_rebuild_dir_inode_tree, with the flags that got to NVMM. With all of them it finds the
        live index again. */
    method Rebuild(flags: set<nat>) returns (now: map<nat, Dentry>, ok: bool)
      requires Valid()
      ensures Replay(log, flags) == State(now, ok)
      ensures flags == invalid ==> ok && now == tree
    {
      now, ok := map[], true;
      for i := 0 to |log|
        invariant Replay(log[..i], flags) == State(now, ok)
      {
        var r := log[i];
        assert log[..i + 1] == log[..i] + [r];
        ReplaySnoc(log[..i], r, flags);
        if ok {
          if r.ino > 0 {
            if r.addr !in flags {
              if r.name in now {
                ok := false;
              } else {
                now := now[r.name := r];
              }
            }
          } else {
            now := now - {r.name};
          }
        }
      }
      assert log[..|log|] == log;
      SoundParts(log, invalid, tree, pages, tail, head);
      ReplayIsIndex(log, invalid, tree);
    }

    /** nova_inode_log_fast_gc: pages before the tail page go if all their records are superseded or
        delete records. The head page never is among them. */
    method FastCollect()
      requires Valid()
      modifies `head, `pages, `log
      ensures Valid() && head == old(head) && old(pages) != []
      ensures pages == LivePages(old(log), invalid, old(pages)[..|old(pages)| - 1]) + [tail / PAGE]
      ensures log == Kept(old(log), OnDeadPages(old(log), invalid, old(pages)[..|old(pages)| - 1]))
    {
      ParentIsThere(log, invalid, tree, pages, tail, head);
      var last := |pages| - 1;
      var kept := [];
      var foundHead, possibleHead := false, 0;
      for i := 0 to last
        invariant kept == LivePages(log, invalid, pages[..i])
        invariant foundHead <==> kept != []
        invariant foundHead ==> possibleHead == kept[0]
      {
        assert pages[..i + 1][..i] == pages[..i];
        if !DeadPage(log, invalid, pages[i]) {
          if !foundHead {
            foundHead, possibleHead := true, pages[i];
          }
          kept := kept + [pages[i]];
        }
      }
      if !foundHead {
        possibleHead := pages[last];
      }
      FastFacts(log, invalid, tree, pages, tail, head, kept);
      var drop := OnDeadPages(log, invalid, pages[..last]);
      log := Kept(log, drop);
      pages := kept + [pages[last]];
      head := possibleHead;
    }

    /** nova_inode_log_thorough_gc: the live records of the pages before the tail page are copied to
        new pages one after the other, and the log begins there. */
    method ThoroughCollect(extra: seq<nat>) returns (ghost to: map<nat, nat>)
      requires Valid() && AllDiffer(extra) && |extra| > |log| && forall i :: 0 <= i < |extra| ==> extra[i] !in pages
      modifies this
      ensures Valid()
      ensures |old(pages)| == 1 ==> unchanged(this)
      ensures |old(pages)| > 1 ==>
                head == extra[0] && log == MoveLog(Kept(old(log), DeadBefore(old(log), invalid, tail / PAGE)), to)
      ensures SameNames(old(tree), tree)
    {
      to := map[];
      ParentIsThere(log, invalid, tree, pages, tail, head);
      if |pages| == 1 {
        return;
      }
      var flags := set a | a in invalid && a / PAGE !in extra;
      ForgetFlags(log, invalid, flags, tree, pages, tail, head, extra);
      invalid := flags;
      var c := CopyFront(extra);
      MovedNames(tree, c.to);
      SwitchTo(extra, c);
      to := c.to;
    }

    /** The copies, followed by the tail page, become the log. */
    method SwitchTo(extra: seq<nat>, c: Pass)
      requires Valid() && |pages| > 1 && forall i :: 0 <= i < |extra| ==> extra[i] !in pages
      requires forall a :: a in invalid ==> a / PAGE !in extra
      requires Passing(log, invalid, tail / PAGE, extra, c) && c.n <= |log| && c.k < |extra|
      requires c.n < |log| ==> PageOf(log[c.n]) == tail / PAGE
      modifies `log, `tree, `pages, `head
      ensures Valid() && head == extra[0] && tree == MoveTree(old(tree), c.to)
      ensures log == MoveLog(Kept(old(log), DeadBefore(old(log), invalid, tail / PAGE)), c.to)
    {
      CompactFacts(log, invalid, tree, pages, tail, head, extra, c);
      log := c.copies + log[c.n..];
      tree := MoveTree(tree, c.to);
      pages := extra[..c.k + 1] + [tail / PAGE];
      head := extra[0];
    }

    /** The copying pass over the pages before the tail page. */
    method CopyFront(extra: seq<nat>) returns (c: Pass)
      requires Valid() && AllDiffer(extra) && |extra| > |log|
      ensures Passing(log, invalid, tail / PAGE, extra, c) && c.n <= |log| && c.k < |extra|
      ensures c.n < |log| ==> PageOf(log[c.n]) == tail / PAGE
    {
      c := Pass(0, [], map[], 0, 0);
      SoundParts(log, invalid, tree, pages, tail, head);
      StartPass(log, invalid, tail / PAGE, extra);
      while c.n < |log| && PageOf(log[c.n]) != tail / PAGE
        invariant Passing(log, invalid, tail / PAGE, extra, c) && c.n <= |log| && c.k < |extra|
        decreases |log| - c.n
      {
        PassHasRoom(log, invalid, tail / PAGE, extra, c);
        if Live(log[c.n], invalid) {
          c := CopyRecord(extra, c);
        } else {
          SkipStep(log, invalid, tail / PAGE, extra, c);
          c := c.(n := c.n + 1);
        }
      }
    }

    /** The copy goes behind the last one, or to the next page if it does not fit there. */
    method CopyRecord(extra: seq<nat>, c: Pass) returns (d: Pass)
      requires Passing(log, invalid, tail / PAGE, extra, c) && c.n < |log| && c.k + 1 < |extra|
      requires PageOf(log[c.n]) != tail / PAGE && Live(log[c.n], invalid) && InPage(log[c.n])
      ensures Passing(log, invalid, tail / PAGE, extra, d) && d.n == c.n + 1 && d.k < |extra|
    {
      var r := log[c.n];
      var k, at := c.k, c.off;
      if at + RecLen(r.len) > LAST_ENTRY {
        k, at := k + 1, 0;
      }
      var x := extra[k] * PAGE + at;
      CopyStep(log, invalid, tail / PAGE, extra, c, k, at, x);
      d := Pass(c.n + 1, c.copies + [r.(addr := x)], c.to[r.addr := x], k, at + RecLen(r.len));
    }
  }
}
