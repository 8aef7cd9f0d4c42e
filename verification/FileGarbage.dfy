/**
 What the two collections take for garbage, said without the test they apply: in a file whose
 counters are exact and whose marks are right, just the records that have nothing left to say.
 */
module FileGarbage {
  import opened FileLog
  import opened FileData
  import opened FileBooks
  import opened FileState
  import opened LogChain
  import opened CopyLog
  import Fast = LogCollect
  import Thorough = LogCompact
  import FileGc

  ghost predicate FollowedBy(log: seq<Rec>, i: nat, kind: Rec -> bool) {
    exists j :: i < j < |log| && kind(log[j])
  }

  /** A write none of whose pages is current; a change of attributes that does not set the size and
      that another one follows; a link count that another one follows. */
  ghost predicate Superseded(log: seq<Rec>, i: nat)
    requires i < |log|
  {
    match log[i].e
    case Write(_, _, _, _) => !Owns(Meaning(log).tree, log[i])
    case SetAttr(setsSize, _, _) => !setsSize && FollowedBy(log, i, IsSetAttr)
    case LinkChange(_) => FollowedBy(log, i, IsLinkChange)
  }

  /** sih->last_setattr and sih->last_link_change point at the last records of their kind. */
  ghost predicate MarksRight(log: seq<Rec>, m: Marks) {
    && (LastOf(log, IsSetAttr) >= 0 ==> log[LastOf(log, IsSetAttr)].addr == m.lastSetattr)
    && (LastOf(log, IsLinkChange) >= 0 ==> log[LastOf(log, IsLinkChange)].addr == m.lastLink)
  }

  lemma FollowedIff(log: seq<Rec>, i: nat, kind: Rec -> bool)
    requires DistinctAddrs(log) && i < |log| && kind(log[i])
    ensures FollowedBy(log, i, kind) <==> log[i].addr != log[LastOf(log, kind)].addr
  {
    var k := LastOf(log, kind);
    assert i <= k;
    if i < k {
      assert kind(log[k]);
    }
  }

  /** An exact counter has reached num_pages if and only if no page of the record is current. */
  lemma FullIffDead(log: seq<Rec>, tree: map<nat, Rec>, invalid: map<nat, nat>, i: nat)
    requires Counted(log, tree, invalid, true) && i < |log| && log[i].e.Write?
    ensures invalid[log[i].addr] == log[i].e.num <==> !Owns(tree, log[i])
  {
    var r := log[i];
    assert Accounted(tree, invalid, r) == r.e.num;
    if invalid[r.addr] == r.e.num {
      FullCounterIsDead(log, tree, invalid, true, i);
    } else {
      assert Owned(tree, r) != {};
      var p :| p in Owned(tree, r);
      assert Owns(tree, r);
    }
  }

  /** The validity test rejects a record if and only if it has nothing left to say. */
  lemma InvalidIffSuperseded(s: State, pend: seq<Rec>, c: seq<byte>, m: Marks, i: nat)
    requires Sound(s, pend, c) && s.exact && m.invalid == s.invalid && MarksRight(s.log, m) && i < |s.log|
    ensures EntryInvalid(s.log[i], m) <==> Superseded(s.log, i)
  {
    SoundParts(s, pend, c);
    match s.log[i].e
    case Write(_, _, _, _) =>
      FullIffDead(s.log, s.tree, s.invalid, i);
    case SetAttr(_, _, _) =>
      FollowedIff(s.log, i, IsSetAttr);
    case LinkChange(_) =>
      FollowedIff(s.log, i, IsLinkChange);
  }

  // ---------------------------------------------------------------------------------------
  // The fast collection
  // ---------------------------------------------------------------------------------------

  /** Where the records of page `k` begin in the log. */
  ghost function PageStart(j: Fast.Job, k: nat): nat
    requires AllPresent(j.recs, j.s) && k <= |j.s|
  {
    |Flat(j.recs, j.s[..k])|
  }

  lemma {:induction false} FlatAt(recs: map<nat, seq<Rec>>, pages: seq<nat>, k: nat, x: nat)
    requires AllPresent(recs, pages) && k < |pages| && x < |recs[pages[k]]|
    ensures |Flat(recs, pages[..k])| + x < |Flat(recs, pages)|
    ensures Flat(recs, pages)[|Flat(recs, pages[..k])| + x] == recs[pages[k]][x]
  {
    var n := |pages| - 1;
    if k < n {
      FlatAt(recs, pages[..n], k, x);
      assert pages[..n][..k] == pages[..k];
    }
  }

  lemma OnPage(j: Fast.Job, k: nat, x: nat)
    requires Fast.Proper(j) && k < j.t && x < |j.recs[j.s[k]]|
    ensures PageStart(j, k) + x < |Fast.LogOf(j)| && Fast.LogOf(j)[PageStart(j, k) + x] == j.recs[j.s[k]][x]
  {
    FlatAt(j.recs, j.s[..j.t], k, x);
    assert j.s[..j.t][..k] == j.s[..k];
  }

  /** Every record of page `k` has nothing left to say. */
  ghost predicate PageSuperseded(j: Fast.Job, k: nat)
    requires Fast.Proper(j) && k < j.t
  {
    var log, from := Fast.LogOf(j), PageStart(j, k);
    forall i :: from <= i < from + |j.recs[j.s[k]]| && i < |log| ==> Superseded(log, i)
  }

  lemma DeadIffSuperseded(s: State, pend: seq<Rec>, c: seq<byte>, j: Fast.Job, k: nat)
    requires Sound(s, pend, c) && s.exact && Fast.Proper(j) && Fast.LogOf(j) == s.log
    requires j.m.invalid == s.invalid && MarksRight(s.log, j.m) && k < j.t
    ensures DeadPage(j.recs[j.s[k]], j.m) <==> PageSuperseded(j, k)
  {
    var page, from := j.recs[j.s[k]], PageStart(j, k);
    if DeadPage(page, j.m) {
      forall i | from <= i < from + |page| && i < |s.log|
        ensures Superseded(s.log, i)
      {
        OnPage(j, k, i - from);
        InvalidIffSuperseded(s, pend, c, j.m, i);
      }
    } else {
      var x :| 0 <= x < |page| && !EntryInvalid(page[x], j.m);
      OnPage(j, k, x);
      InvalidIffSuperseded(s, pend, c, j.m, from + x);
      assert !Superseded(s.log, from + x);
    }
  }

  lemma {:induction false} LivePagesHave(recs: map<nat, seq<Rec>>, pages: seq<nat>, m: Marks, p: nat)
    requires AllPresent(recs, pages)
    ensures p in LivePages(recs, pages, m) <==> p in pages && !DeadPage(recs[p], m)
  {
    if pages != [] {
      LivePagesHave(recs, pages[..|pages| - 1], m, p);
    }
  }

  /** After a fast collection the chain has lost exactly the pages before the tail page that hold
      nothing but superseded records, and just these are back with the allocator. */
  lemma FastTakesGarbage(s: State, pend: seq<Rec>, c: seq<byte>, j: Fast.Job, start: Fast.Disk, d: Fast.Disk)
    returns (chain: seq<nat>)
    requires Sound(s, pend, c) && s.exact && Fast.Proper(j) && Fast.LogOf(j) == s.log
    requires j.m.invalid == s.invalid && MarksRight(s.log, j.m)
    requires FileGc.FastDone(j, start, d)
    ensures IsChain(d.head, d.next, chain)
    ensures forall k :: 0 <= k < j.t ==> (PageSuperseded(j, k) <==> j.s[k] !in chain)
    ensures forall k :: 0 <= k < j.t ==> (PageSuperseded(j, k) <==> j.s[k] in d.released)
    ensures forall k :: j.t <= k < |j.s| ==> j.s[k] in chain && j.s[k] !in d.released
  {
    var live := LivePages(j.recs, j.s[..j.t], j.m);
    var kept := live + j.s[j.t..];
    chain := kept + j.extra;
    forall k | 0 <= k < |j.s|
      ensures j.s[k] in kept <==> k >= j.t || !PageSuperseded(j, k)
      ensures j.s[k] !in j.was && j.s[k] !in j.extra
    {
      KeptIff(s, pend, c, j, start, k);
    }
  }

  lemma KeptIff(s: State, pend: seq<Rec>, c: seq<byte>, j: Fast.Job, start: Fast.Disk, k: nat)
    requires Sound(s, pend, c) && s.exact && Fast.Proper(j) && Fast.LogOf(j) == s.log
    requires j.m.invalid == s.invalid && MarksRight(s.log, j.m)
    requires IsChain(start.head, start.next, j.s) && k < |j.s|
    ensures j.s[k] in LivePages(j.recs, j.s[..j.t], j.m) + j.s[j.t..] <==> k >= j.t || !PageSuperseded(j, k)
  {
    LivePagesHave(j.recs, j.s[..j.t], j.m, j.s[k]);
    if k < j.t {
      DeadIffSuperseded(s, pend, c, j, k);
      assert j.s[..j.t][k] == j.s[k];
      assert j.s[k] !in j.s[j.t..];
    } else {
      assert j.s[j.t..][k - j.t] == j.s[k];
    }
  }

  // ---------------------------------------------------------------------------------------
  // The thorough collection
  // ---------------------------------------------------------------------------------------

  /** The pass copies exactly the records that have something left to say, except that it loses the
      last change of attributes if one that sets the size precedes it among those passed. */
  lemma ThoroughCopiesTheRest(s: State, pend: seq<Rec>, b: seq<byte>, w: Thorough.Work, c: Copy, i: nat)
    requires Sound(s, pend, b) && s.exact && FileGc.ThoroughOf(s, pend, w, c) && MarksRight(s.log, w.m) && i < |w.log|
    ensures w.log[i] == s.log[i]
    ensures w.log[i].addr in c.to <==>
            && !Superseded(s.log, i)
            && (w.log[i].e.SetAttr? && !w.log[i].e.setsSize ==> !SizeSetterIn(w.log[..i]))
  {
    SoundParts(s, pend, b);
    assert w.log[..|w.log|] == w.log;
    InvalidIffSuperseded(s, pend, b, w.m, i);
    LeftOutIsInvalid(w.log, w.m, i);
    assert w.log[i].addr in Addrs(w.log);
    if w.log[i].e.SetAttr? && !w.log[i].e.setsSize && !Superseded(s.log, i) {
      LastAttrSurvivesIff(w.log, w.m, i);
    }
  }
}
