/**
 The inode log of a regular file and what a rebuild makes of it.

 A log is a sequence of records in NVMM.  A record has an address (its identity) and an
 immutable payload; the `invalid_pages` counter of a write record is the one field that is
 updated in place, so it is kept outside the record, and a rebuild sees it only through
 `marks`, the addresses of the write records whose counter has reached `num_pages`.
 */
module FileLog {

  const PAGE: nat := 4096

  /** Records end here in a log page; the link to the next page follows. */
  const LAST_ENTRY: nat := 4064

  datatype Entry =
    | Write(pgoff: nat, num: nat, block: nat, size: nat)
    | SetAttr(setsSize: bool, size: nat, attrs: nat)
    | LinkChange(links: nat)

  datatype Rec = Rec(addr: nat, e: Entry)

  /** What a rebuild leaves in DRAM: the page index, the file size and the attributes. */
  datatype View = View(tree: map<nat, Rec>, size: nat, attrs: nat, links: nat)

  /** Number of pages that a file of `size` bytes reaches into. */
  function PagesOf(size: nat): nat {
    (size + PAGE - 1) / PAGE
  }

  predicate Covers(r: Rec, p: nat) {
    r.e.Write? && r.e.pgoff <= p < r.e.pgoff + r.e.num
  }

  /** The NVMM block behind page `p` of a write record (get_nvmm). */
  function BlockOf(r: Rec, p: nat): nat
    requires Covers(r, p)
  {
    r.e.block + (p - r.e.pgoff)
  }

  function Assign(tree: map<nat, Rec>, r: Rec): map<nat, Rec>
    requires r.e.Write?
  {
    tree + map p | r.e.pgoff <= p < r.e.pgoff + r.e.num && Covers(r, p) :: r
  }

  function Cut(tree: map<nat, Rec>, from: nat, to: nat): map<nat, Rec> {
    map p | p in tree && !(from <= p < to) :: tree[p]
  }

  /** One iteration of the rebuild loop. */
  function Apply(v: View, r: Rec, dead: bool): View {
    match r.e
    case Write(_, _, _, size) =>
      v.(tree := if dead then v.tree else Assign(v.tree, r), size := size)
    case SetAttr(_, size, attrs) =>
      v.(tree := if v.size > size then Cut(v.tree, PagesOf(size), PagesOf(v.size)) else v.tree,
         size := size,
         attrs := attrs)
    case LinkChange(links) => v.(links := links)
  }

  function Replay(v0: View, log: seq<Rec>, marks: set<nat>): View {
    if log == [] then v0
    else
      var k := |log| - 1;
      Apply(Replay(v0, log[..k], marks), log[k], log[k].addr in marks)
  }

  lemma ReplayAppend(v0: View, log: seq<Rec>, r: Rec, marks: set<nat>)
    ensures Replay(v0, log + [r], marks) == Apply(Replay(v0, log, marks), r, r.addr in marks)
    ensures WellSized(log + [r]) == (WellSized(log) && Appendable(r.e, Meaning(log).size))
    ensures forall drop :: Filter(log + [r], drop) == Filter(log, drop) + (if r.addr in drop then [] else [r])
  {
    assert (log + [r])[..|log|] == log;
  }

  predicate Fresh(v0: View) {
    v0.tree == map[]
  }

  const EMPTY := View(map[], 0, 0, 0)

  /** The meaning of a log: a replay that trusts no counter. */
  function Meaning(log: seq<Rec>): View {
    Replay(EMPTY, log, {})
  }

  predicate SetsSize(r: Rec) {
    r.e.Write? || r.e.SetAttr?
  }

  ghost predicate Owns(tree: map<nat, Rec>, r: Rec) {
    exists p :: p in tree && tree[p] == r
  }

  /** The entry rules every operation obeys when it appends: a write record reaches no further
      than the size it records and never shrinks the file; only a size-setting attribute
      record may shrink it. */
  predicate WellSized(log: seq<Rec>) {
    log == [] ||
    var k := |log| - 1;
    && WellSized(log[..k])
    && Appendable(log[k].e, Meaning(log[..k]).size)
  }

  predicate Appendable(e: Entry, size: nat) {
    match e
    case Write(pgoff, num, _, s) => num > 0 && size <= s && pgoff + num <= PagesOf(s)
    case SetAttr(setsSize, s, _) => setsSize || size <= s
    case LinkChange(_) => true
  }

  /** An address no record of the log uses. */
  function NewAddr(log: seq<Rec>): (a: nat)
    ensures forall i :: 0 <= i < |log| ==> log[i].addr < a
  {
    if log == [] then 1
    else
      var b := NewAddr(log[..|log| - 1]);
      if b <= log[|log| - 1].addr then log[|log| - 1].addr + 1 else b
  }

  predicate DistinctAddrs(log: seq<Rec>) {
    forall i, j :: 0 <= i < j < |log| ==> log[i].addr != log[j].addr
  }

  function Filter(log: seq<Rec>, drop: set<nat>): seq<Rec> {
    if log == [] then []
    else
      var k := |log| - 1;
      Filter(log[..k], drop) + (if log[k].addr in drop then [] else [log[k]])
  }

  // ---------------------------------------------------------------------------------------
  // Garbage collection keeps the meaning of a log
  // ---------------------------------------------------------------------------------------

  /** The addresses a collection may drop and a rebuild may skip: write records that own no
      page of the index, and attribute or link records that do not set the size. */
  ghost predicate Collectable(log: seq<Rec>, drop: set<nat>, marks: set<nat>) {
    && (forall i :: 0 <= i < |log| && log[i].e.Write? && log[i].addr in drop + marks ==>
      !Owns(Meaning(log).tree, log[i]))
    && (forall i :: 0 <= i < |log| && log[i].e.SetAttr? && log[i].addr in drop ==> !log[i].e.setsSize)
  }

  /** How a collected replay `red` stands to the full one while both are still running: they
      agree on every page whose owner is neither dropped nor skipped, and `red` never maps a
      page that the full replay has unmapped. */
  ghost predicate Tracks(full: View, red: View, gone: set<nat>) {
    && red.size <= full.size
    && (forall p :: p in red.tree ==> p < PagesOf(red.size))
    && (forall p :: p in full.tree && full.tree[p].addr !in gone ==> p in red.tree && red.tree[p] == full.tree[p])
    && (forall p :: p in red.tree ==> p in full.tree)
  }

  lemma PagesMonotone(a: nat, b: nat)
    requires a <= b
    ensures PagesOf(a) <= PagesOf(b)
  {
  }

  lemma {:induction false} ReplaysTrack(log: seq<Rec>, drop: set<nat>, marks: set<nat>)
    requires WellSized(log)
    requires forall i :: 0 <= i < |log| && log[i].e.SetAttr? && log[i].addr in drop ==> !log[i].e.setsSize
    ensures Tracks(Meaning(log), Replay(EMPTY, Filter(log, drop), marks), drop + marks)
  {
    if log != [] {
      var k := |log| - 1;
      var pre, r := log[..k], log[k];
      ReplaysTrack(pre, drop, marks);
      var full, red := Meaning(pre), Replay(EMPTY, Filter(pre, drop), marks);
      if r.addr in drop {
        assert Filter(log, drop) == Filter(pre, drop);
        TrackDropped(full, red, r, drop + marks);
      } else {
        var kept := Filter(log, drop);
        assert kept == Filter(pre, drop) + [r];
        assert kept[..|kept| - 1] == Filter(pre, drop) && kept[|kept| - 1] == r;
        TrackKept(full, red, r, r.addr in marks, drop + marks);
      }
    }
  }

  lemma TrackDropped(full: View, red: View, r: Rec, gone: set<nat>)
    requires Tracks(full, red, gone) && Appendable(r.e, full.size)
    requires r.addr in gone
    requires r.e.SetAttr? ==> !r.e.setsSize
    ensures Tracks(Apply(full, r, false), red, gone)
  {
  }

  lemma TrackKept(full: View, red: View, r: Rec, dead: bool, gone: set<nat>)
    requires Tracks(full, red, gone) && Appendable(r.e, full.size)
    requires dead ==> r.addr in gone
    ensures Tracks(Apply(full, r, false), Apply(red, r, dead), gone)
  {
    PagesMonotone(red.size, full.size);
    if r.e.Write? {
      PagesMonotone(red.size, r.e.size);
    }
  }

  // The scalar fields of a view come from the last record of a kind.

  predicate IsSetAttr(r: Rec) {
    r.e.SetAttr?
  }

  predicate IsLinkChange(r: Rec) {
    r.e.LinkChange?
  }

  /** Index of the last record of a kind, or -1. */
  function LastOf(log: seq<Rec>, kind: Rec -> bool): (k: int)
    ensures -1 <= k < |log|
    ensures k >= 0 ==> kind(log[k])
    ensures forall i :: k < i < |log| ==> !kind(log[i])
  {
    if log == [] then -1
    else if kind(log[|log| - 1]) then |log| - 1
    else LastOf(log[..|log| - 1], kind)
  }

  lemma {:induction false} FieldsOf(v0: View, log: seq<Rec>, marks: set<nat>)
    ensures var v := Replay(v0, log, marks);
            var s, a, l := LastOf(log, SetsSize), LastOf(log, IsSetAttr), LastOf(log, IsLinkChange);
            && v.size == (if s < 0 then v0.size else log[s].e.size)
            && v.attrs == (if a < 0 then v0.attrs else log[a].e.attrs)
            && v.links == (if l < 0 then v0.links else log[l].e.links)
  {
    if log != [] {
      FieldsOf(v0, log[..|log| - 1], marks);
    }
  }

  lemma {:induction false} FilterKeepsLast(log: seq<Rec>, drop: set<nat>, kind: Rec -> bool)
    requires LastOf(log, kind) >= 0 ==> log[LastOf(log, kind)].addr !in drop
    ensures var j, k := LastOf(log, kind), LastOf(Filter(log, drop), kind);
            (j < 0 <==> k < 0) && (j >= 0 ==> Filter(log, drop)[k] == log[j])
  {
    if log != [] {
      var n := |log| - 1;
      var kept := Filter(log, drop);
      if log[n].addr in drop {
        assert kept == Filter(log[..n], drop);
      } else {
        assert kept[..|kept| - 1] == Filter(log[..n], drop) && kept[|kept| - 1] == log[n];
      }
      if !kind(log[n]) {
        FilterKeepsLast(log[..n], drop, kind);
      }
    }
  }

  /** The record that set the size last still owns a page if it is a write. */
  lemma {:induction false} LastWriteOwns(log: seq<Rec>)
    requires WellSized(log)
    requires LastOf(log, SetsSize) >= 0 && log[LastOf(log, SetsSize)].e.Write?
    ensures Owns(Meaning(log).tree, log[LastOf(log, SetsSize)])
  {
    var k := |log| - 1;
    if log[k].e.Write? {
      assert log[k].e.pgoff in Meaning(log).tree && Meaning(log).tree[log[k].e.pgoff] == log[k];
    } else {
      LastWriteOwns(log[..k]);
      assert Meaning(log).tree == Meaning(log[..k]).tree;
    }
  }

  /** The stale size found in the inode does not matter to the index. */
  lemma {:induction false} StartIsIrrelevant(v0: View, log: seq<Rec>, marks: set<nat>)
    requires Fresh(v0)
    ensures Replay(v0, log, marks).tree == Replay(EMPTY, log, marks).tree
    ensures LastOf(log, SetsSize) < 0 ==> Replay(v0, log, marks).tree == map[]
  {
    if log != [] {
      var pre := log[..|log| - 1];
      StartIsIrrelevant(v0, pre, marks);
      FieldsOf(v0, pre, marks);
      FieldsOf(EMPTY, pre, marks);
    }
  }

  /** A collection that drops dead writes and superseded records, and a rebuild that skips any
      of the dead writes, give exactly the index, size and attributes of the full log. */
  lemma CollectionKeepsView(v0: View, log: seq<Rec>, drop: set<nat>, marks: set<nat>)
    requires Fresh(v0) && WellSized(log) && Collectable(log, drop, marks)
    requires LastOf(log, IsSetAttr) >= 0 ==> log[LastOf(log, IsSetAttr)].addr !in drop
    requires LastOf(log, IsLinkChange) >= 0 ==> log[LastOf(log, IsLinkChange)].addr !in drop
    ensures Replay(v0, Filter(log, drop), marks) == Replay(v0, log, {})
  {
    SameIndex(v0, log, drop, marks);
    var s := LastOf(log, SetsSize);
    if s >= 0 && log[s].e.Write? {
      LastWriteOwns(log);
    }
    if s >= 0 && log[s].e.SetAttr? {
      assert LastOf(log, IsSetAttr) == s;
    }
    FilterKeepsLast(log, drop, SetsSize);
    FilterKeepsLast(log, drop, IsSetAttr);
    FilterKeepsLast(log, drop, IsLinkChange);
    FieldsOf(v0, log, {});
    FieldsOf(v0, Filter(log, drop), marks);
  }

  /** The index alone survives even when the newest attribute record is dropped. */
  lemma SameIndex(v0: View, log: seq<Rec>, drop: set<nat>, marks: set<nat>)
    requires Fresh(v0) && WellSized(log) && Collectable(log, drop, marks)
    ensures Replay(v0, Filter(log, drop), marks).tree == Meaning(log).tree
    ensures Replay(v0, log, {}).tree == Meaning(log).tree
  {
    ReplaysTrack(log, drop, marks);
    StartIsIrrelevant(v0, log, {});
    StartIsIrrelevant(v0, Filter(log, drop), marks);
    var full := Meaning(log);
    forall p | p in full.tree
      ensures full.tree[p].addr !in drop + marks
    {
      OwnersAreLogged(log, p);
      assert Owns(full.tree, full.tree[p]);
    }
  }

  lemma {:induction false} OwnersAreLogged(log: seq<Rec>, p: nat)
    requires p in Meaning(log).tree
    ensures exists i :: 0 <= i < |log| && log[i] == Meaning(log).tree[p] && Covers(log[i], p)
  {
    var k := |log| - 1;
    var pre := Meaning(log[..k]).tree;
    if log[k].e.Write? && Covers(log[k], p) {
      assert log[k] == Meaning(log).tree[p];
    } else {
      assert p in pre && pre[p] == Meaning(log).tree[p];
      OwnersAreLogged(log[..k], p);
      var i :| 0 <= i < k && log[..k][i] == pre[p] && Covers(log[..k][i], p);
      assert log[i] == Meaning(log).tree[p];
    }
  }

  /** What is left is again a log the operations could have written. */
  lemma {:induction false} CollectionKeepsWellSized(log: seq<Rec>, drop: set<nat>)
    requires WellSized(log)
    requires forall i :: 0 <= i < |log| && log[i].e.SetAttr? && log[i].addr in drop ==> !log[i].e.setsSize
    ensures WellSized(Filter(log, drop))
  {
    if log != [] {
      var k := |log| - 1;
      CollectionKeepsWellSized(log[..k], drop);
      var kept := Filter(log, drop);
      if log[k].addr in drop {
        assert kept == Filter(log[..k], drop);
      } else {
        assert kept[..|kept| - 1] == Filter(log[..k], drop) && kept[|kept| - 1] == log[k];
        ReplaysTrack(log[..k], drop, {});
      }
    }
  }

  /** Every key of the index lies below the file size rounded up to pages. */
  lemma KeysBelowSize(log: seq<Rec>, p: nat)
    requires WellSized(log) && p in Meaning(log).tree
    ensures p < PagesOf(Meaning(log).size)
  {
    FilterNothing(log);
    ReplaysTrack(log, {}, {});
  }

  lemma {:induction false} FilterNothing(log: seq<Rec>)
    ensures Filter(log, {}) == log
  {
    if log != [] {
      FilterNothing(log[..|log| - 1]);
    }
  }

  // A thorough collection that moves the newest attribute record out of reach may drop it.
  // Index and size survive that as well, because attribute records that do not set the size
  // repeat the size of the last record that does.

  predicate Resizes(r: Rec) {
    r.e.Write? || (r.e.SetAttr? && r.e.setsSize)
  }

  function LastSize(log: seq<Rec>): nat {
    var k := LastOf(log, Resizes);
    if k < 0 then 0 else log[k].e.size
  }

  predicate Settled(log: seq<Rec>) {
    forall i :: LastOf(log, Resizes) < i < |log| && log[i].e.SetAttr? ==> log[i].e.size == LastSize(log)
  }

  lemma SettledSize(log: seq<Rec>, marks: set<nat>)
    requires Settled(log)
    ensures Replay(EMPTY, log, marks).size == LastSize(log)
  {
    FieldsOf(EMPTY, log, marks);
    var s := LastOf(log, SetsSize);
    assert LastOf(log, Resizes) <= s;
  }

  lemma {:induction false} LastResizerOwns(log: seq<Rec>)
    requires WellSized(log)
    requires LastOf(log, Resizes) >= 0 && log[LastOf(log, Resizes)].e.Write?
    ensures Owns(Meaning(log).tree, log[LastOf(log, Resizes)])
  {
    var k := |log| - 1;
    if log[k].e.Write? {
      assert log[k].e.pgoff in Meaning(log).tree && Meaning(log).tree[log[k].e.pgoff] == log[k];
    } else {
      LastResizerOwns(log[..k]);
      assert Meaning(log).tree == Meaning(log[..k]).tree;
    }
  }

  lemma LastOfAppend(log: seq<Rec>, r: Rec, kind: Rec -> bool)
    ensures LastOf(log + [r], kind) == if kind(r) then |log| else LastOf(log, kind)
  {
    assert (log + [r])[..|log|] == log;
  }

  lemma SettledAppend(log: seq<Rec>, r: Rec)
    ensures LastSize(log + [r]) == if Resizes(r) then r.e.size else LastSize(log)
    ensures Settled(log + [r]) <==> Resizes(r) || (Settled(log) && (r.e.SetAttr? ==> r.e.size == LastSize(log)))
  {
    var all := log + [r];
    LastOfAppend(log, r, Resizes);
    if !Resizes(r) {
      assert all[|log|] == r;
      assert forall i :: 0 <= i < |log| ==> all[i] == log[i];
    }
  }

  lemma {:induction false} FilterKeepsSettled(log: seq<Rec>, drop: set<nat>)
    requires Settled(log)
    requires LastOf(log, Resizes) >= 0 ==> log[LastOf(log, Resizes)].addr !in drop
    ensures Settled(Filter(log, drop)) && LastSize(Filter(log, drop)) == LastSize(log)
  {
    if log != [] {
      var n := |log| - 1;
      var pre, r := log[..n], log[n];
      assert log == pre + [r];
      SettledAppend(pre, r);
      LastOfAppend(pre, r, Resizes);
      SettledAppend(Filter(pre, drop), r);
      if !Resizes(r) {
        FilterKeepsSettled(pre, drop);
      }
      assert r.addr in drop ==> Filter(log, drop) == Filter(pre, drop);
    }
  }

  /** Index and size after any collection of dead writes and of attribute and link records
      that do not set the size: unchanged, also for a rebuild that skips dead writes. */
  lemma CollectionKeepsIndexAndSize(log: seq<Rec>, drop: set<nat>, marks: set<nat>)
    requires WellSized(log) && Settled(log) && Collectable(log, drop, marks)
    ensures Replay(EMPTY, Filter(log, drop), marks).tree == Meaning(log).tree
    ensures Replay(EMPTY, Filter(log, drop), marks).size == Meaning(log).size
    ensures WellSized(Filter(log, drop)) && Settled(Filter(log, drop))
  {
    SameIndex(EMPTY, log, drop, marks);
    CollectionKeepsWellSized(log, drop);
    if LastOf(log, Resizes) >= 0 && log[LastOf(log, Resizes)].e.Write? {
      LastResizerOwns(log);
    }
    FilterKeepsSettled(log, drop);
    SettledSize(log, {});
    SettledSize(Filter(log, drop), marks);
  }

  /** The same from any inode: its size field matters only if no record ever changed the size. */
  lemma CollectionKeepsFile(v0: View, log: seq<Rec>, drop: set<nat>, marks: set<nat>)
    requires Fresh(v0) && WellSized(log) && Settled(log) && Collectable(log, drop, marks)
    requires LastOf(log, Resizes) < 0 ==> v0.size == 0
    ensures var v := Replay(v0, Filter(log, drop), marks);
            v.tree == Meaning(log).tree && v.size == Meaning(log).size
  {
    var kept := Filter(log, drop);
    SameIndex(v0, log, drop, marks);
    CollectionKeepsIndexAndSize(log, drop, marks);
    FieldsOf(v0, kept, marks);
    FieldsOf(EMPTY, kept, marks);
    if LastOf(log, Resizes) >= 0 {
      if log[LastOf(log, Resizes)].e.Write? {
        LastResizerOwns(log);
      }
      FilterKeepsLast(log, drop, Resizes);
    }
  }

  // A thorough collection also moves the records it keeps.

  function Moved(r: Rec, to: map<nat, nat>): Rec {
    if r.addr in to then r.(addr := to[r.addr]) else r
  }

  function MoveLog(log: seq<Rec>, to: map<nat, nat>): seq<Rec> {
    seq(|log|, i requires 0 <= i < |log| => Moved(log[i], to))
  }

  function MoveTree(tree: map<nat, Rec>, to: map<nat, nat>): map<nat, Rec> {
    map p | p in tree :: Moved(tree[p], to)
  }

  lemma AssignMoved(tree: map<nat, Rec>, r: Rec, to: map<nat, nat>)
    requires r.e.Write?
    ensures MoveTree(Assign(tree, r), to) == Assign(MoveTree(tree, to), Moved(r, to))
  {
    var a, b := MoveTree(Assign(tree, r), to), Assign(MoveTree(tree, to), Moved(r, to));
    assert forall p :: Covers(Moved(r, to), p) <==> Covers(r, p);
    assert forall p :: p in a <==> p in b;
  }

  lemma ApplyMoved(v: View, r: Rec, to: map<nat, nat>)
    ensures Apply(v.(tree := MoveTree(v.tree, to)), Moved(r, to), false) ==
            (var w := Apply(v, r, false); w.(tree := MoveTree(w.tree, to)))
  {
    match r.e
    case Write(_, _, _, _) =>
      AssignMoved(v.tree, r, to);
    case SetAttr(_, size, _) =>
      var a, b := PagesOf(size), PagesOf(v.size);
      assert MoveTree(Cut(v.tree, a, b), to) == Cut(MoveTree(v.tree, to), a, b);
    case LinkChange(_) =>
  }

  lemma {:induction false} ReplayMoved(log: seq<Rec>, to: map<nat, nat>)
    ensures Meaning(MoveLog(log, to)) == Meaning(log).(tree := MoveTree(Meaning(log).tree, to))
    ensures WellSized(MoveLog(log, to)) == WellSized(log)
  {
    if log == [] {
      assert MoveTree(map[], to) == map[];
    } else {
      var k := |log| - 1;
      ReplayMoved(log[..k], to);
      assert MoveLog(log, to)[..k] == MoveLog(log[..k], to);
      ApplyMoved(Meaning(log[..k]), log[k], to);
    }
  }

  lemma {:induction false} MovedSettled(log: seq<Rec>, to: map<nat, nat>)
    ensures LastOf(MoveLog(log, to), Resizes) == LastOf(log, Resizes)
    ensures LastSize(MoveLog(log, to)) == LastSize(log)
    ensures Settled(MoveLog(log, to)) == Settled(log)
  {
    if log != [] {
      var k := |log| - 1;
      MovedSettled(log[..k], to);
      assert MoveLog(log, to)[..k] == MoveLog(log[..k], to);
    }
    var m := MoveLog(log, to);
    assert forall i :: 0 <= i < |log| ==> m[i].e == log[i].e;
  }

  const TWO_PAGES := Rec(4096, Write(0, 2, 100, 8192))
  const SHRINK := Rec(4136, SetAttr(true, 4096, 0))
  const REGROW := Rec(4168, SetAttr(true, 8192, 0))

  /** Why a size-setting attribute record is kept however old it is: in this log the shrink to
      one page is not the newest attribute record, yet without it the later growth to two
      pages would bring the cut page back. */
  lemma DroppingSizeSetterIsUnsound()
    ensures var log := [TWO_PAGES, SHRINK, REGROW];
            && WellSized(log) && LastOf(log, IsSetAttr) == 2
            && Filter(log, {SHRINK.addr}) == [TWO_PAGES, REGROW]
            && 1 !in Meaning(log).tree
            && 1 in Meaning([TWO_PAGES, REGROW]).tree
  {
    var one, two := [TWO_PAGES], [TWO_PAGES, SHRINK];
    ReplayAppend(EMPTY, [], TWO_PAGES, {});
    ReplayAppend(EMPTY, one, SHRINK, {});
    ReplayAppend(EMPTY, two, REGROW, {});
    ReplayAppend(EMPTY, one, REGROW, {});
    assert [] + one == one && one + [SHRINK] == two && two + [REGROW] == [TWO_PAGES, SHRINK, REGROW];
    assert Filter(one, {SHRINK.addr}) == one && Filter(two, {SHRINK.addr}) == one;
  }
}
