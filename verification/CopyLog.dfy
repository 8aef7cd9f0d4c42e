/**
 What the thorough collection of inode.c keeps of a log when it copies the valid records to new
 pages: which records survive, where they are laid out, and what that does to the marks.
 */
module CopyLog {
  import opened FileLog
  import opened FileBooks
  import opened LogChain

  // ---------------------------------------------------------------------------------------
  // Which records are copied
  // ---------------------------------------------------------------------------------------

  /** Whether the copying pass that started with marks `m` leaves `r` out, once it has passed the
      records `before`. Copying any attribute record moves the mark for the last one to the
      copy, so that a later record is no longer recognised by it. */
  predicate Garbage(r: Rec, before: seq<Rec>, m: Marks)
    decreases |before|, 1
  {
    match r.e
    case SetAttr(setsSize, _, _) => !setsSize && (r.addr != m.lastSetattr || CopiedAttr(before, m))
    case LinkChange(_) => r.addr != m.lastLink
    case Write(_, _, _, _) => EntryInvalid(r, m)
  }

  predicate CopiedAttr(before: seq<Rec>, m: Marks)
    decreases |before|, 0
  {
    before != [] &&
    var k := |before| - 1;
    CopiedAttr(before[..k], m) || (before[k].e.SetAttr? && !Garbage(before[k], before[..k], m))
  }

  /** The addresses that the pass over `log` leaves out. */
  function LeftOut(log: seq<Rec>, m: Marks): set<nat> {
    if log == [] then {}
    else
      var k := |log| - 1;
      LeftOut(log[..k], m) + (if Garbage(log[k], log[..k], m) then {log[k].addr} else {})
  }

  lemma {:induction false} LeftOutWithin(log: seq<Rec>, m: Marks)
    ensures LeftOut(log, m) <= Addrs(log)
  {
    if log != [] {
      var k := |log| - 1;
      LeftOutWithin(log[..k], m);
      assert forall i :: 0 <= i < k ==> log[..k][i] == log[i];
    }
  }

  /** A record is left out exactly when it is garbage at its place. */
  lemma {:induction false} LeftOutIff(log: seq<Rec>, m: Marks, i: nat)
    requires DistinctAddrs(log) && i < |log|
    ensures log[i].addr in LeftOut(log, m) <==> Garbage(log[i], log[..i], m)
  {
    var k := |log| - 1;
    if i < k {
      LeftOutIff(log[..k], m, i);
      assert log[..k][..i] == log[..i];
    } else {
      LeftOutWithin(log[..k], m);
    }
  }

  ghost predicate SizeSetterIn(log: seq<Rec>) {
    exists i :: 0 <= i < |log| && log[i].e.SetAttr? && log[i].e.setsSize
  }

  ghost predicate LastAttrIn(log: seq<Rec>, m: Marks) {
    exists i :: 0 <= i < |log| && log[i].e.SetAttr? && log[i].addr == m.lastSetattr
  }

  /** Attribute records are copied from `log` exactly when it has one that changes the size or
      the last one. */
  lemma {:induction false} CopiedAttrIff(log: seq<Rec>, m: Marks)
    ensures CopiedAttr(log, m) <==> SizeSetterIn(log) || LastAttrIn(log, m)
  {
    if log != [] {
      var k := |log| - 1;
      var r := log[k];
      CopiedAttrIff(log[..k], m);
      if SizeSetterIn(log[..k]) {
        var i :| 0 <= i < k && log[..k][i].e.SetAttr? && log[..k][i].e.setsSize;
        assert log[i] == log[..k][i];
      }
      if LastAttrIn(log[..k], m) {
        var i :| 0 <= i < k && log[..k][i].e.SetAttr? && log[..k][i].addr == m.lastSetattr;
        assert log[i] == log[..k][i];
      }
      assert forall i :: 0 <= i < k ==> log[..k][i] == log[i];
    }
  }

  /** The last attribute record survives the pass if and only if it changes the size or no
      record that changes the size precedes it among the collected ones. */
  lemma LastAttrSurvivesIff(log: seq<Rec>, m: Marks, i: nat)
    requires DistinctAddrs(log) && i < |log| && log[i].e.SetAttr? && log[i].addr == m.lastSetattr
    ensures log[i].addr !in LeftOut(log, m) <==> log[i].e.setsSize || !SizeSetterIn(log[..i])
  {
    LeftOutIff(log, m, i);
    CopiedAttrIff(log[..i], m);
    assert !LastAttrIn(log[..i], m) by {
      assert forall j :: 0 <= j < i ==> log[..i][j] == log[j] && log[j].addr != log[i].addr;
    }
  }

  const GROW := Rec(4096, SetAttr(true, 8192, 1))
  const CHMOD := Rec(4128, SetAttr(false, 8192, 2))

  /** So a change of mode after a change of size can be lost: the pass keeps the first record
      and leaves out the second, and a rebuild then finds the old attributes. */
  lemma ModeChangeCanBeLost()
    ensures var log, m := [GROW, CHMOD], Marks(CHMOD.addr, 0, map[]);
            && WellSized(log) && DistinctAddrs(log) && Current(log, m)
            && Meaning(log).attrs == 2
            && Meaning(Filter(log, LeftOut(log, m))).attrs == 1
  {
    var log, m := [GROW, CHMOD], Marks(CHMOD.addr, 0, map[]);
    assert log[..1] == [GROW] && log[..1][..0] == [] && [GROW][..0] == [];
    assert CopiedAttr([GROW], m);
    assert LeftOut([GROW], m) == {};
    assert LeftOut(log, m) == {CHMOD.addr};
    assert Filter([GROW], {CHMOD.addr}) == [GROW];
    assert Filter(log, {CHMOD.addr}) == [GROW];
    assert LastOf(log, IsSetAttr) == 1;
  }

  /** Everything else is as the validity test says: no record is left out that the test accepts,
      except for that one; and none is copied that it rejects. */
  lemma LeftOutIsInvalid(log: seq<Rec>, m: Marks, i: nat)
    requires DistinctAddrs(log) && i < |log|
    ensures EntryInvalid(log[i], m) ==> log[i].addr in LeftOut(log, m)
    ensures log[i].addr in LeftOut(log, m) && !EntryInvalid(log[i], m)
            ==> log[i].e.SetAttr? && !log[i].e.setsSize && log[i].addr == m.lastSetattr && SizeSetterIn(log[..i])
  {
    LeftOutIff(log, m, i);
    if log[i].e.SetAttr? && log[i].addr == m.lastSetattr {
      LastAttrSurvivesIff(log, m, i);
    }
  }

  // ---------------------------------------------------------------------------------------
  // Where the copies go
  // ---------------------------------------------------------------------------------------

  function Bytes(rs: seq<Rec>): nat {
    if rs == [] then 0 else Bytes(rs[..|rs| - 1]) + SizeOf(rs[|rs| - 1])
  }

  /** Records fill page `p` from its start without gaps and leave the link alone. */
  predicate Laid(p: nat, rs: seq<Rec>) {
    rs == [] ||
    var k := |rs| - 1;
    && Laid(p, rs[..k])
    && rs[k].addr == p * PAGE + Bytes(rs[..k])
    && Bytes(rs) <= LAST_ENTRY
  }

  lemma LaidMore(p: nat, rs: seq<Rec>, e: Entry)
    requires Laid(p, rs) && Bytes(rs) + SizeOf(Rec(0, e)) <= LAST_ENTRY
    ensures Laid(p, rs + [Rec(p * PAGE + Bytes(rs), e)])
  {
    var r := Rec(p * PAGE + Bytes(rs), e);
    assert (rs + [r])[..|rs|] == rs;
  }

  lemma PageOfAddr(p: nat, off: nat)
    requires off < PAGE
    ensures (p * PAGE + off) / PAGE == p
  {
  }

  lemma {:induction false} LaidAddrs(p: nat, rs: seq<Rec>)
    requires Laid(p, rs)
    ensures Bytes(rs) <= LAST_ENTRY && DistinctAddrs(rs)
    ensures forall i :: 0 <= i < |rs| ==> p * PAGE <= rs[i].addr < p * PAGE + Bytes(rs) && rs[i].addr / PAGE == p
  {
    if rs != [] {
      var k := |rs| - 1;
      LaidAddrs(p, rs[..k]);
      assert forall i :: 0 <= i < k ==> rs[..k][i] == rs[i];
      PageOfAddr(p, Bytes(rs[..k]));
    }
  }

  /** The new pages up to page `k` are filled in order; the later ones are empty. */
  ghost predicate Filled(pages: seq<nat>, k: nat, recs: map<nat, seq<Rec>>) {
    && k < |pages| && AllPresent(recs, pages)
    && (forall i, j :: 0 <= i < j < |pages| ==> pages[i] != pages[j])
    && (forall i :: 0 <= i <= k ==> Laid(pages[i], recs[pages[i]]))
    && (forall i :: k < i < |pages| ==> recs[pages[i]] == [])
  }

  lemma {:induction false} FlatSame(a: map<nat, seq<Rec>>, b: map<nat, seq<Rec>>, pages: seq<nat>)
    requires AllPresent(a, pages) && AllPresent(b, pages)
    requires forall i :: 0 <= i < |pages| ==> a[pages[i]] == b[pages[i]]
    ensures Flat(a, pages) == Flat(b, pages)
  {
    if pages != [] {
      FlatSame(a, b, pages[..|pages| - 1]);
    }
  }

  /** Writing one more record to page `k`. */
  lemma FilledMore(pages: seq<nat>, k: nat, recs: map<nat, seq<Rec>>, r: Rec, now: map<nat, seq<Rec>>)
    requires Filled(pages, k, recs) && Bytes(recs[pages[k]]) + SizeOf(r) <= LAST_ENTRY
    requires r.addr == pages[k] * PAGE + Bytes(recs[pages[k]])
    requires now == recs[pages[k] := recs[pages[k]] + [r]]
    ensures Filled(pages, k, now)
    ensures Flat(now, pages[..k + 1]) == Flat(recs, pages[..k + 1]) + [r]
  {
    var p := pages[k];
    LaidMore(p, recs[p], r.e);
    FlatPrefix(recs, pages, k);
    FlatPrefix(now, pages, k);
    FlatSame(recs, now, pages[..k]);
    assert Flat(recs, pages[..k]) + (recs[p] + [r]) == Flat(recs, pages[..k]) + recs[p] + [r];
  }

  /** Going on to the next page, which is empty. */
  lemma FilledNext(pages: seq<nat>, k: nat, recs: map<nat, seq<Rec>>)
    requires Filled(pages, k, recs) && k + 1 < |pages|
    ensures Filled(pages, k + 1, recs)
    ensures Flat(recs, pages[..k + 2]) == Flat(recs, pages[..k + 1])
  {
    FlatPrefix(recs, pages, k + 1);
  }

  /** One more empty page behind the others. */
  lemma FilledExtend(pages: seq<nat>, k: nat, recs: map<nat, seq<Rec>>, p: nat)
    requires Filled(pages, k, recs) && p in recs && recs[p] == [] && p !in pages
    ensures Filled(pages + [p], k, recs)
    ensures Flat(recs, (pages + [p])[..k + 1]) == Flat(recs, pages[..k + 1])
  {
    assert (pages + [p])[..k + 1] == pages[..k + 1];
  }

  function PageOf(r: Rec): nat {
    r.addr / PAGE
  }

  ghost predicate OnPages(log: seq<Rec>, pages: seq<nat>) {
    forall i :: 0 <= i < |log| ==> PageOf(log[i]) in pages
  }

  lemma OnePageMore(a: seq<Rec>, front: seq<nat>, b: seq<Rec>, p: nat)
    requires OnPages(a, front) && DistinctAddrs(a) && p !in front
    requires DistinctAddrs(b) && forall i :: 0 <= i < |b| ==> PageOf(b[i]) == p
    ensures OnPages(a + b, front + [p]) && DistinctAddrs(a + b)
  {
    var all: seq<Rec> := a + b;
    forall i, j | 0 <= i < j < |all|
      ensures all[i].addr != all[j].addr
    {
      if i < |a| <= j {
        assert PageOf(all[i]) in front && PageOf(all[j]) == p;
      }
    }
  }

  /** The copies have addresses in the new pages only. */
  lemma {:induction false} FilledAddrs(pages: seq<nat>, k: nat, recs: map<nat, seq<Rec>>, n: nat)
    requires Filled(pages, k, recs) && n <= k + 1
    ensures OnPages(Flat(recs, pages[..n]), pages[..n]) && DistinctAddrs(Flat(recs, pages[..n]))
  {
    if n > 0 {
      var p := pages[n - 1];
      FilledAddrs(pages, k, recs, n - 1);
      FlatPrefix(recs, pages, n - 1);
      LaidAddrs(p, recs[p]);
      assert pages[..n] == pages[..n - 1] + [p];
      assert p !in pages[..n - 1];
      OnePageMore(Flat(recs, pages[..n - 1]), pages[..n - 1], recs[p], p);
    }
  }

  // ---------------------------------------------------------------------------------------
  // One pass
  // ---------------------------------------------------------------------------------------

  /** What the pass has produced: the new pages, their records, where each copied record went,
      the marks and the index. */
  datatype Copy = Copy(pages: seq<nat>, k: nat, recs: map<nat, seq<Rec>>, to: map<nat, nat>, m: Marks,
                       tree: map<nat, Rec>)

  /** The new addresses `to` lie in none of the pages of the records `log`. */
  ghost predicate Elsewhere(to: map<nat, nat>, log: seq<Rec>) {
    forall x, i :: x in to && 0 <= i < |log| ==> to[x] != log[i].addr
  }

  ghost predicate SameCounter(now: map<nat, nat>, x: nat, was: map<nat, nat>, a: nat) {
    (x in now <==> a in was) && (a in was ==> now[x] == was[a])
  }

  /** Each copy has the counter of its record, and the other counters are as they were. */
  ghost predicate CountersCarried(now: map<nat, nat>, to: map<nat, nat>, was: map<nat, nat>) {
    && (forall a :: a in to ==> SameCounter(now, to[a], was, a))
    && (forall a {:trigger SameCounter(now, a, was, a)} :: a !in to.Values ==> SameCounter(now, a, was, a))
  }

  /** The marks tell the same about the records to come as the function Garbage does. */
  ghost predicate MarksTell(c: Copy, log: seq<Rec>, n: nat, m: Marks)
    requires n <= |log|
  {
    && CountersCarried(c.m.invalid, c.to, m.invalid)
    && (if CopiedAttr(log[..n], m) then c.m.lastSetattr in c.to.Values else c.m.lastSetattr == m.lastSetattr)
    && (c.m.lastLink == m.lastLink || (m.lastLink in Addrs(log[..n]) && c.m.lastLink in c.to.Values))
  }

  /** The copies made of the first `n` records. */
  ghost predicate Copies(c: Copy, log: seq<Rec>, n: nat, m: Marks)
    requires n <= |log|
  {
    && Filled(c.pages, c.k, c.recs)
    && Flat(c.recs, c.pages[..c.k + 1]) == MoveLog(Filter(log[..n], LeftOut(log[..n], m)), c.to)
    && c.to.Keys == Addrs(log[..n]) - LeftOut(log[..n], m)
  }

  /** The first `n` records of `log` have been passed. */
  ghost predicate Copying(c: Copy, log: seq<Rec>, n: nat, m: Marks, tree: map<nat, Rec>) {
    && n <= |log| && DistinctAddrs(log)
    && Copies(c, log, n, m)
    && Elsewhere(c.to, log)
    && MarksTell(c, log, n, m)
    && c.tree == MoveTree(tree, c.to)
  }

  /** The test that the pass applies agrees with Garbage. */
  lemma TestIsGarbage(c: Copy, log: seq<Rec>, n: nat, m: Marks)
    requires n < |log| && DistinctAddrs(log) && Elsewhere(c.to, log) && MarksTell(c, log, n, m)
    ensures EntryInvalid(log[n], c.m) <==> Garbage(log[n], log[..n], m)
  {
    var r := log[n];
    assert r.addr !in Addrs(log[..n]);
    assert r.addr !in c.to.Values;
    assert SameCounter(c.m.invalid, r.addr, m.invalid, r.addr);
  }

  lemma PassSnoc(log: seq<Rec>, n: nat, m: Marks)
    requires n < |log|
    ensures log[..n + 1] == log[..n] + [log[n]]
    ensures var drop := if Garbage(log[n], log[..n], m) then {log[n].addr} else {};
            LeftOut(log[..n + 1], m) == LeftOut(log[..n], m) + drop
    ensures CopiedAttr(log[..n + 1], m)
            == (CopiedAttr(log[..n], m) || (log[n].e.SetAttr? && !Garbage(log[n], log[..n], m)))
  {
    assert log[..n + 1][..n] == log[..n];
  }

  lemma FilterPass(log: seq<Rec>, n: nat, m: Marks)
    requires n < |log| && DistinctAddrs(log)
    ensures Filter(log[..n + 1], LeftOut(log[..n + 1], m))
            == Filter(log[..n], LeftOut(log[..n], m)) + (if Garbage(log[n], log[..n], m) then [] else [log[n]])
  {
    var a, r := log[..n], log[n];
    PassSnoc(log, n, m);
    LeftOutWithin(a, m);
    assert r.addr !in Addrs(a);
    FilterSnoc(a, r, LeftOut(log[..n + 1], m));
    if Garbage(r, a, m) {
      FilterSame(a, LeftOut(a, m), {r.addr});
    } else {
      assert LeftOut(a, m) + {} == LeftOut(a, m);
    }
  }

  /** A record that is left out. */
  lemma SkipStep(c: Copy, log: seq<Rec>, n: nat, m: Marks, tree: map<nat, Rec>)
    requires Copying(c, log, n, m, tree) && n < |log| && EntryInvalid(log[n], c.m)
    ensures Copying(c, log, n + 1, m, tree)
  {
    TestIsGarbage(c, log, n, m);
    FilterPass(log, n, m);
    PassSnoc(log, n, m);
    var a, r := log[..n], log[n];
    assert r.addr !in Addrs(a);
    AddrsSnoc(a, r);
  }

  lemma AddrsSnoc(a: seq<Rec>, r: Rec)
    ensures Addrs(a + [r]) == Addrs(a) + {r.addr}
  {
    var b := a + [r];
    assert forall i :: 0 <= i < |a| ==> b[i] == a[i];
    assert b[|a|] == r;
    forall x | x in Addrs(a)
      ensures x in Addrs(b)
    {
      var i :| 0 <= i < |a| && a[i].addr == x;
      assert b[i].addr == x;
    }
  }

  lemma MoveMore(kept: seq<Rec>, to: map<nat, nat>, r: Rec, x: nat)
    requires forall i :: 0 <= i < |kept| ==> kept[i].addr != r.addr
    ensures MoveLog(kept + [r], to[r.addr := x]) == MoveLog(kept, to) + [Rec(x, r.e)]
  {
  }

  /** The index once every page that belonged to `r` belongs to its copy at `x`. */
  ghost function Reassigned(tree: map<nat, Rec>, r: Rec, x: nat): map<nat, Rec> {
    map p | p in tree :: if tree[p].addr == r.addr then Rec(x, r.e) else tree[p]
  }

  lemma TreeMore(tree: map<nat, Rec>, to: map<nat, nat>, r: Rec, x: nat)
    requires r.addr !in to && r.addr !in to.Values
    requires forall p :: p in tree && tree[p].addr == r.addr ==> tree[p] == r
    ensures MoveTree(tree, to[r.addr := x]) == Reassigned(MoveTree(tree, to), r, x)
  {
  }

  /** The counter is part of the record and is copied with it. */
  function Carried(invalid: map<nat, nat>, a: nat, x: nat): map<nat, nat> {
    if a in invalid then invalid[x := invalid[a]] else invalid - {x}
  }

  /** nova_gc_assign_new_entry, as far as the marks go. */
  function Marked(m: Marks, r: Rec, x: nat): Marks {
    var now := m.(invalid := Carried(m.invalid, r.addr, x));
    match r.e
    case SetAttr(_, _, _) => now.(lastSetattr := x)
    case LinkChange(_) => now.(lastLink := x)
    case Write(_, _, _, _) => now
  }

  lemma CarryMore(now: map<nat, nat>, to: map<nat, nat>, was: map<nat, nat>, a: nat, x: nat)
    requires CountersCarried(now, to, was) && a !in to && a !in to.Values && x !in to.Values
    ensures CountersCarried(Carried(now, a, x), to[a := x], was)
  {
    var next, more := Carried(now, a, x), to[a := x];
    assert SameCounter(now, a, was, a);
    assert more[a] == x;
    assert forall b :: b in to ==> more[b] == to[b] && to[b] in to.Values;
    forall b | b in more
      ensures SameCounter(next, more[b], was, b)
    {
      assert b != a ==> SameCounter(now, to[b], was, b);
    }
    forall b | b !in more.Values
      ensures SameCounter(next, b, was, b)
    {
      assert SameCounter(now, b, was, b);
    }
  }

  /** The state after `r` has been copied to the end of page `k`. */
  ghost function Copied(c: Copy, r: Rec): Copy
    requires c.k < |c.pages| && c.pages[c.k] in c.recs
  {
    var p := c.pages[c.k];
    var x := p * PAGE + Bytes(c.recs[p]);
    c.(recs := c.recs[p := c.recs[p] + [Rec(x, r.e)]], to := c.to[r.addr := x], m := Marked(c.m, r, x),
       tree := Reassigned(c.tree, r, x))
  }

  lemma KeptStep(log: seq<Rec>, n: nat, m: Marks, to: map<nat, nat>, x: nat)
    requires n < |log| && DistinctAddrs(log) && !Garbage(log[n], log[..n], m)
    ensures MoveLog(Filter(log[..n + 1], LeftOut(log[..n + 1], m)), to[log[n].addr := x])
            == MoveLog(Filter(log[..n], LeftOut(log[..n], m)), to) + [Rec(x, log[n].e)]
  {
    var a := log[..n];
    FilterPass(log, n, m);
    var kept := Filter(a, LeftOut(a, m));
    FilterMembers(a, LeftOut(a, m));
    assert forall i :: 0 <= i < |kept| ==> kept[i] in a;
    assert forall i :: 0 <= i < n ==> a[i].addr != log[n].addr;
    MoveMore(kept, to, log[n], x);
  }

  lemma KeysStep(log: seq<Rec>, n: nat, m: Marks, to: map<nat, nat>, x: nat)
    requires n < |log| && DistinctAddrs(log) && !Garbage(log[n], log[..n], m)
    requires to.Keys == Addrs(log[..n]) - LeftOut(log[..n], m)
    ensures to[log[n].addr := x].Keys == Addrs(log[..n + 1]) - LeftOut(log[..n + 1], m)
  {
    var a, r := log[..n], log[n];
    PassSnoc(log, n, m);
    AddrsSnoc(a, r);
    LeftOutWithin(a, m);
    assert r.addr !in Addrs(a);
    assert to[r.addr := x].Keys == to.Keys + {r.addr};
  }

  lemma CopiesStep(c: Copy, d: Copy, log: seq<Rec>, n: nat, m: Marks, x: nat)
    requires n < |log| && DistinctAddrs(log) && Copies(c, log, n, m) && !Garbage(log[n], log[..n], m)
    requires Bytes(c.recs[c.pages[c.k]]) + SizeOf(log[n]) <= LAST_ENTRY
    requires x == c.pages[c.k] * PAGE + Bytes(c.recs[c.pages[c.k]])
    requires d.pages == c.pages && d.k == c.k && d.to == c.to[log[n].addr := x]
    requires d.recs == c.recs[c.pages[c.k] := c.recs[c.pages[c.k]] + [Rec(x, log[n].e)]]
    ensures Copies(d, log, n + 1, m)
  {
    FilledMore(c.pages, c.k, c.recs, Rec(x, log[n].e), d.recs);
    KeptStep(log, n, m, c.to, x);
    KeysStep(log, n, m, c.to, x);
  }

  /** New pages hold none of the records that are being copied. */
  ghost predicate NewPages(pages: seq<nat>, log: seq<Rec>) {
    forall i :: 0 <= i < |log| ==> PageOf(log[i]) !in pages
  }

  lemma MarksStep(c: Copy, d: Copy, log: seq<Rec>, n: nat, m: Marks, x: nat)
    requires n < |log| && DistinctAddrs(log) && MarksTell(c, log, n, m)
    requires !Garbage(log[n], log[..n], m)
    requires d.to == c.to[log[n].addr := x] && d.m == Marked(c.m, log[n], x)
    requires log[n].addr !in c.to && log[n].addr !in c.to.Values && x !in c.to.Values
    ensures MarksTell(d, log, n + 1, m)
  {
    var r := log[n];
    CarryMore(c.m.invalid, c.to, m.invalid, r.addr, x);
    PassSnoc(log, n, m);
    AddrsSnoc(log[..n], r);
    assert r.addr in d.to && d.to[r.addr] == x;
    assert forall y :: y in c.to ==> d.to[y] == c.to[y];
    assert forall v :: v in c.to.Values ==> v in d.to.Values;
  }

  lemma NewAddress(pages: seq<nat>, k: nat, recs: map<nat, seq<Rec>>, log: seq<Rec>, x: nat)
    requires Filled(pages, k, recs) && NewPages(pages, log) && x == pages[k] * PAGE + Bytes(recs[pages[k]])
    ensures forall i :: 0 <= i < |log| ==> log[i].addr != x
  {
    var p := pages[k];
    LaidAddrs(p, recs[p]);
    PageOfAddr(p, Bytes(recs[p]));
    forall i | 0 <= i < |log|
      ensures log[i].addr != x
    {
      assert PageOf(log[i]) != p;
    }
  }

  /** Where the copies are. */
  lemma ValuesAreFilled(c: Copy, log: seq<Rec>, n: nat, m: Marks)
    requires n <= |log| && Copies(c, log, n, m)
    ensures c.to.Values <= Addrs(Flat(c.recs, c.pages[..c.k + 1]))
  {
    var a, drop := log[..n], LeftOut(log[..n], m);
    var kept, copies := Filter(a, drop), Flat(c.recs, c.pages[..c.k + 1]);
    FilterMembers(a, drop);
    forall x | x in c.to.Values
      ensures x in Addrs(copies)
    {
      var y :| y in c.to && c.to[y] == x;
      var i :| 0 <= i < |a| && a[i].addr == y;
      assert a[i] in kept;
      var j :| 0 <= j < |kept| && kept[j] == a[i];
      assert copies[j].addr == x;
    }
  }

  /** The place of the next copy is not taken. */
  lemma NewPlace(c: Copy, log: seq<Rec>, n: nat, m: Marks, x: nat)
    requires n <= |log| && Copies(c, log, n, m)
    requires x == c.pages[c.k] * PAGE + Bytes(c.recs[c.pages[c.k]])
    ensures x !in c.to.Values
  {
    var p := c.pages[c.k];
    ValuesAreFilled(c, log, n, m);
    FilledAddrs(c.pages, c.k, c.recs, c.k);
    FlatPrefix(c.recs, c.pages, c.k);
    LaidAddrs(p, c.recs[p]);
    PageOfAddr(p, Bytes(c.recs[p]));
    var a, b := Flat(c.recs, c.pages[..c.k]), c.recs[p];
    var all: seq<Rec> := a + b;
    forall i | 0 <= i < |all|
      ensures all[i].addr != x
    {
      if i < |a| {
        assert PageOf(a[i]) in c.pages[..c.k];
      } else {
        assert all[i] == b[i - |a|];
      }
    }
  }

  /** A record that is copied. */
  lemma CopyStep(c: Copy, log: seq<Rec>, n: nat, m: Marks, tree: map<nat, Rec>)
    requires Copying(c, log, n, m, tree) && n < |log| && !EntryInvalid(log[n], c.m)
    requires Bytes(c.recs[c.pages[c.k]]) + SizeOf(log[n]) <= LAST_ENTRY
    requires NewPages(c.pages, log)
    requires forall p :: p in tree && tree[p].addr == log[n].addr ==> tree[p] == log[n]
    ensures Copying(Copied(c, log[n]), log, n + 1, m, tree)
  {
    var r := log[n];
    var x := c.pages[c.k] * PAGE + Bytes(c.recs[c.pages[c.k]]);
    TestIsGarbage(c, log, n, m);
    CopiesStep(c, Copied(c, r), log, n, m, x);
    assert r.addr !in Addrs(log[..n]);
    NewPlace(c, log, n, m, x);
    assert r.addr !in c.to.Values;
    MarksStep(c, Copied(c, r), log, n, m, x);
    NewAddress(c.pages, c.k, c.recs, log, x);
    TreeMore(tree, c.to, r, x);
  }

  /** Going on to the next new page, or to one allocated for it. */
  lemma NextPageStep(c: Copy, d: Copy, log: seq<Rec>, n: nat, m: Marks, tree: map<nat, Rec>)
    requires Copying(c, log, n, m, tree) && c.k + 1 < |c.pages| && d == c.(k := c.k + 1)
    ensures Copying(d, log, n, m, tree)
  {
    FilledNext(c.pages, c.k, c.recs);
  }

  lemma MorePagesStep(c: Copy, d: Copy, p: nat, log: seq<Rec>, n: nat, m: Marks, tree: map<nat, Rec>)
    requires Copying(c, log, n, m, tree) && p in c.recs && c.recs[p] == [] && p !in c.pages
    requires d == c.(pages := c.pages + [p])
    ensures Copying(d, log, n, m, tree)
  {
    FilledExtend(c.pages, c.k, c.recs, p);
  }

  /** nova_gc_assign_file_entry: looks only at the pages that the record covers. */
  method AssignFileEntry(tree: map<nat, Rec>, r: Rec, x: nat) returns (now: map<nat, Rec>)
    requires forall p :: p in tree && tree[p].addr == r.addr ==> tree[p] == r && Covers(r, p)
    requires x != r.addr
    ensures now == Reassigned(tree, r, x)
  {
    now := tree;
    if r.e.Write? {
      for i := 0 to r.e.num
        invariant now.Keys == tree.Keys
        invariant forall p :: p in tree ==>
          now[p] == if tree[p].addr == r.addr && p < r.e.pgoff + i then Rec(x, r.e) else tree[p]
      {
        var p := r.e.pgoff + i;
        if p in now && now[p].addr == r.addr {
          now := now[p := Rec(x, r.e)];
        }
      }
    }
  }
}
