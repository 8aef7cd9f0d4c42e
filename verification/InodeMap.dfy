/**
 Inode numbers (inode.c, bbuild.c): one map of used numbers for each CPU, kept as ranges of which
 the first begins at zero.
 */
module InodeMap {
  import opened Ranges
  import opened FreeLists

  /** Numbers below this one are reserved. */
  const NORMAL_INODE_START: nat := 16

  const MAX_INODE: nat := 0x8000_0000

  /** The last reserved number of each map (nova_init_inode_inuse_list). */
  function ReservedHigh(cpus: nat): nat
    requires cpus > 0
  {
    (NORMAL_INODE_START - 1) / cpus + if NORMAL_INODE_START % cpus != 0 then 1 else 0
  }

  /** The inode number that map `cpu` gives to its number `internal`. */
  function InoOf(internal: nat, cpu: nat, cpus: nat): nat {
    internal * cpus + cpu
  }

  lemma AtLeast(k: int, d: nat)
    requires k >= 1
    ensures k * d >= d
  {
  }

  lemma Distributes(a: int, q: int, d: int)
    ensures (a - q) * d == a * d - q * d
  {
  }

  lemma SameQuotient(q: int, m: int, a: int, i: int, d: nat)
    requires q * d + m == a * d + i && 0 <= m < d && 0 <= i < d
    ensures q == a && m == i
  {
    Distributes(a, q, d);
    Distributes(q, a, d);
    if a > q {
      AtLeast(a - q, d);
    } else if a < q {
      AtLeast(q - a, d);
    }
  }

  /** An inode number leads back to its map and its number there, so no two maps give the same. */
  lemma InoLeadsBack(a: nat, i: nat, cpus: nat)
    requires i < cpus
    ensures InoOf(a, i, cpus) % cpus == i && InoOf(a, i, cpus) / cpus == a
  {
    var n := InoOf(a, i, cpus);
    SameQuotient(n / cpus, n % cpus, a, i, cpus);
  }

  /** Numbers above the reserved part of a map give inode numbers that are not reserved. */
  lemma NotReserved(internal: nat, cpu: nat, cpus: nat)
    requires cpus > 0 && internal > ReservedHigh(cpus)
    ensures InoOf(internal, cpu, cpus) >= NORMAL_INODE_START
  {
    var q := (NORMAL_INODE_START - 1) / cpus;
    assert NORMAL_INODE_START - 1 < q * cpus + cpus;
    assert internal * cpus >= (q + 1) * cpus;
  }

  function FirstFree(cpus: nat): nat
    requires cpus > 0
  {
    var rest := NORMAL_INODE_START % cpus;
    NORMAL_INODE_START + if rest == 0 then 0 else 2 * cpus - rest
  }

  /** Which inode numbers a new device holds in reserve: those below the first normal one and, if
      the CPUs do not divide that one evenly, up to two more for each CPU. */
  lemma ReservedExactly(internal: nat, cpu: nat, cpus: nat)
    requires cpu < cpus
    ensures internal <= ReservedHigh(cpus) <==> InoOf(internal, cpu, cpus) < FirstFree(cpus)
  {
    HighIs(cpus);
    FirstFreeIs(cpus);
    BelowMultiple(internal, cpu, cpus, Rows(cpus));
  }

  /** How many numbers of each map are in reserve. */
  function Rows(cpus: nat): int
    requires cpus > 0
  {
    NORMAL_INODE_START / cpus + if NORMAL_INODE_START % cpus == 0 then 0 else 2
  }

  lemma Divided(a: nat, d: nat)
    requires d > 0
    ensures a == a / d * d + a % d
  {
  }

  lemma HighIs(cpus: nat)
    requires cpus > 0
    ensures ReservedHigh(cpus) + 1 == Rows(cpus)
  {
    var a := NORMAL_INODE_START;
    var q, m := a / cpus, a % cpus;
    Divided(a, cpus);
    Divided(a - 1, cpus);
    if m == 0 {
      Distributes(q, 1, cpus);
      SameQuotient((a - 1) / cpus, (a - 1) % cpus, q - 1, cpus - 1, cpus);
    } else {
      SameQuotient((a - 1) / cpus, (a - 1) % cpus, q, m - 1, cpus);
    }
  }

  lemma FirstFreeIs(cpus: nat)
    requires cpus > 0
    ensures FirstFree(cpus) == Rows(cpus) * cpus
  {
    var q := NORMAL_INODE_START / cpus;
    Divided(NORMAL_INODE_START, cpus);
    Distributes(q, -2, cpus);
  }

  lemma BelowMultiple(internal: nat, cpu: nat, cpus: nat, n: int)
    requires cpu < cpus
    ensures internal < n <==> InoOf(internal, cpu, cpus) < n * cpus
  {
    Distributes(n, internal, cpus);
    Distributes(internal, n, cpus);
    if internal < n {
      AtLeast(n - internal, cpus);
    } else if internal > n {
      AtLeast(internal - n, cpus);
    }
  }

  /** Every normal inode number is free at first if and only if the CPUs divide the first one. */
  lemma NormalAreUnusedIff(cpus: nat)
    requires cpus > 0
    ensures NORMAL_INODE_START % cpus == 0 <==>
            forall internal: nat, cpu: nat :: cpu < cpus && InoOf(internal, cpu, cpus) >= NORMAL_INODE_START ==>
              internal > ReservedHigh(cpus)
  {
    forall internal: nat, cpu: nat | cpu < cpus
      ensures internal <= ReservedHigh(cpus) <==> InoOf(internal, cpu, cpus) < FirstFree(cpus)
    {
      ReservedExactly(internal, cpu, cpus);
    }
    if NORMAL_INODE_START % cpus != 0 {
      InoLeadsBack(NORMAL_INODE_START / cpus, NORMAL_INODE_START % cpus, cpus);
      assert InoOf(NORMAL_INODE_START / cpus, NORMAL_INODE_START % cpus, cpus) == NORMAL_INODE_START;
    }
  }

  /** With three CPUs the normal number 18 is in reserve. */
  lemma ThreeCpus()
    ensures InoOf(6, 0, 3) == 18 >= NORMAL_INODE_START && 6 <= ReservedHigh(3)
  {
    ReservedExactly(6, 0, 3);
  }

  /** All of `rs` but the number `x`, which is in range `k`. */
  function Without(rs: seq<Range>, k: nat, x: nat): seq<Range>
    requires k < |rs| && Within(rs[k], x)
  {
    var r := rs[k];
    if x == r.low && x == r.high then rs[..k] + rs[k + 1..]
    else if x == r.low then rs[k := Range(x + 1, r.high)]
    else if x == r.high then rs[k := Range(r.low, x - 1)]
    else rs[..k] + [Range(r.low, x - 1)] + ([Range(x + 1, r.high)] + rs[k + 1..])
  }

  lemma ReplacedSorted(rs: seq<Range>, k: nat, r: Range)
    requires Sorted(rs) && k < |rs| && rs[k].low <= r.low <= r.high <= rs[k].high
    ensures Sorted(rs[k := r])
  {
    var t := rs[k := r];
    forall i, j | 0 <= i < j < |t|
      ensures Clear(t[i], t[j])
    {
      assert Clear(rs[i], rs[j]);
    }
  }

  lemma SplitSorted(rs: seq<Range>, k: nat, x: nat)
    requires Sorted(rs) && k < |rs| && rs[k].low < x < rs[k].high
    ensures Sorted(Without(rs, k, x))
  {
    var a, l, g, b := rs[..k], Range(rs[k].low, x - 1), Range(x + 1, rs[k].high), rs[k + 1..];
    SortedParts(rs, k);
    SortedParts(rs, k + 1);
    assert k > 0 ==> Clear(rs[k - 1], rs[k]);
    assert k + 1 < |rs| ==> Clear(rs[k], rs[k + 1]);
    SortedJoin([], g, b);
    assert [] + [g] + b == [g] + b;
    SortedJoin(a, l, [g] + b);
  }

  lemma WithoutSorted(rs: seq<Range>, k: nat, x: nat)
    requires Sorted(rs) && k < |rs| && Within(rs[k], x)
    ensures Sorted(Without(rs, k, x))
  {
    var r := rs[k];
    if x == r.low && x == r.high {
      TakenSorted(rs, k, 1);
    } else if x == r.low {
      ReplacedSorted(rs, k, Range(x + 1, r.high));
    } else if x == r.high {
      ReplacedSorted(rs, k, Range(r.low, x - 1));
    } else {
      SplitSorted(rs, k, x);
    }
  }

  lemma WithoutHas(rs: seq<Range>, k: nat, x: nat, y: nat)
    requires Sorted(rs) && k < |rs| && Within(rs[k], x)
    ensures Has(Without(rs, k, x), y) <==> Has(rs, y) && y != x
  {
    var a, r, b := rs[..k], rs[k], rs[k + 1..];
    HasOne(rs, k, y);
    SortedIsOrdered(rs);
    OthersElsewhere(rs, k, y);
    if x == r.low && x == r.high {
      TakenHas(rs, k, 1, y);
    } else if x == r.low || x == r.high {
      var q := if x == r.low then Range(x + 1, r.high) else Range(r.low, x - 1);
      assert rs[k := q] == a + [q] + b;
      HasJoin(a, q, b, y);
    } else {
      var l, g := Range(r.low, x - 1), Range(x + 1, r.high);
      HasJoin(a, l, [g] + b, y);
      HasJoin([], g, b, y);
      assert [] + [g] + b == [g] + b;
    }
  }

  class InodeMap {
    const cpu: nat
    const cpus: nat
    /** The ranges of used numbers, in order; first_inode_range is the one at the front. */
    var ranges: seq<Range>
    var numRangeNode: int

    ghost predicate Valid()
      reads this
    {
      && cpu < cpus && Sorted(ranges) && numRangeNode == |ranges|
      && ranges != [] && ranges[0].low == 0 && ranges[0].high >= ReservedHigh(cpus)
    }

    /** nova_init_inode_inuse_list */
    constructor (cpu: nat, cpus: nat)
      requires cpu < cpus
      ensures Valid() && this.cpu == cpu && this.cpus == cpus
      ensures forall x: nat :: Has(ranges, x) <==> x <= ReservedHigh(cpus)
      ensures forall x: nat :: Has(ranges, x) <==> InoOf(x, cpu, cpus) < FirstFree(cpus)
    {
      this.cpu, this.cpus := cpu, cpus;
      ranges := [Range(0, ReservedHigh(cpus))];
      numRangeNode := 1;
      new;
      forall x: nat
        ensures Has(ranges, x) <==> x <= ReservedHigh(cpus)
        ensures Has(ranges, x) <==> InoOf(x, cpu, cpus) < FirstFree(cpus)
      {
        assert x <= ReservedHigh(cpus) ==> Within(ranges[0], x);
        ReservedExactly(x, cpu, cpus);
      }
    }

    /** nova_alloc_unused_inode: the least number that is not in use. It fails only if all numbers
        but the last are in use. */
    method AllocUnusedInode() returns (ok: bool, ino: nat, ghost n: nat)
      requires Valid()
      modifies this
      ensures Valid()
      ensures !Has(old(ranges), n) && forall x :: 0 <= x < n ==> Has(old(ranges), x)
      ensures ok ==> forall x :: Has(ranges, x) <==> Has(old(ranges), x) || x == n
      ensures ok ==> ino == InoOf(n, cpu, cpus) && ino >= NORMAL_INODE_START && ino % cpus == cpu && ino / cpus == n
      ensures !ok ==> ranges == old(ranges) && n >= MAX_INODE - 1 && |ranges| == 1
    {
      var first := ranges[0];
      var low := if |ranges| > 1 then ranges[1].low else MAX_INODE;
      var num := first.high + 1;
      n := num;
      LeastUnused(ranges, num);
      NextNumber(ranges, num);
      if |ranges| > 1 && num == low - 1 {
        ranges := [Range(first.low, ranges[1].high)] + ranges[2..];
        numRangeNode := numRangeNode - 1;
      } else if num < low - 1 {
        ranges := ranges[0 := Range(first.low, num)];
      } else {
        return false, 0, n;
      }
      NotReserved(num, cpu, cpus);
      InoLeadsBack(num, cpu, cpus);
      return true, num * cpus + cpu, n;
    }

    /** nova_free_inuse_inode. Nothing protects the reserved numbers. */
    method FreeInuseInode(ino: nat) returns (ok: bool)
      requires Valid() && ino % cpus == cpu
      modifies this
      ensures ok <==> Has(old(ranges), ino / cpus)
      ensures !ok ==> unchanged(this)
      ensures ok ==> Sorted(ranges) && numRangeNode == |ranges|
      ensures ok ==> forall x :: Has(ranges, x) <==> Has(old(ranges), x) && x != ino / cpus
      ensures ok ==> (Valid() <==> ino / cpus > ReservedHigh(cpus))
    {
      var x := ino / cpus;
      var tree := AnyShape(ranges);
      var hit, curr, k;
      ghost var g;
      SortedIsOrdered(ranges);
      hit, curr, k, g := FindRangeNode(tree, x);
      if !hit {
        GapIsFree(ranges, g, x);
        return false;
      }
      assert Within(ranges[k], x);
      Dropped(ranges, k, x, ReservedHigh(cpus));
      numRangeNode := if curr.r.low == x == curr.r.high then numRangeNode - 1
                      else if curr.r.low < x < curr.r.high then numRangeNode + 1
                      else numRangeNode;
      ranges := Without(ranges, k, x);
      return true;
    }

    /** nova_failure_insert_inodetree: a run of numbers found in use after a crash. One that is there
        already in part is either refused or ruins the order. */
    method FailureInsert(low: nat, high: nat) returns (ok: bool, ghost gap: nat)
      requires Valid() && low <= high
      modifies this
      ensures !ok ==> unchanged(this) && Overlaps(old(ranges), low, high)
      ensures ok ==> Gap(old(ranges), gap, low) && ranges == Merged(old(ranges), gap, Range(low, high))
      ensures ok ==> (Valid() <==> !Overlaps(old(ranges), low, high))
      ensures ok && Valid() ==> forall x: nat :: Has(ranges, x) <==> Has(old(ranges), x) || low <= x <= high
    {
      var n := Range(low, high);
      var tree := AnyShape(ranges);
      SortedIsOrdered(ranges);
      var g;
      ok, g := FindFreeSlot(tree, low, high);
      gap := g;
      if !ok {
        return;
      }
      OrderedIffApart(ranges, g, n);
      if !Overlaps(ranges, low, high) {
        GapFits(ranges, g, n);
        Freed(ranges, g, n);
        StillFirst(ranges, g, n);
      } else if Sorted(Merged(ranges, g, n)) {
        SortedIsOrdered(Merged(ranges, g, n));
      }
      numRangeNode := numRangeNode + |Merged(ranges, g, n)| - |ranges|;
      ranges := Merged(ranges, g, n);
    }

    /** The valid inodes of one page of the inode table, in order: nova_failure_update_inodetree
        gathers numbers that follow each other into one run. `xs` are their numbers in this map. */
    method RecoverPage(inos: seq<nat>, ghost xs: seq<nat>)
      requires Valid() && Numbered(inos, xs, cpu, cpus)
      requires forall i :: 0 <= i < |xs| ==> xs[i] > 0 && !Has(ranges, xs[i])
      modifies this
      ensures Valid()
      ensures forall x: nat :: Has(ranges, x) <==> Has(old(ranges), x) || Among(xs, 0, |xs|, x)
    {
      var low, high := 0, 0;
      ghost var s := 0;
      for i := 0 to |inos|
        invariant Valid() && 0 <= s <= i
        invariant low == 0 <==> i == 0
        invariant i > 0 ==> s < i && low == inos[s] && high == inos[i - 1] && xs[i - 1] == xs[s] + (i - 1 - s)
        invariant forall x: nat :: Has(ranges, x) <==> Has(old(ranges), x) || Among(xs, 0, s, x)
      {
        InoGrows(inos, xs, cpu, cpus, i);
        if low == 0 {
          low, high := inos[i], inos[i];
        } else if inos[i] == high + cpus {
          high := inos[i];
        } else {
          NotYet(xs, s, i);
          InsertGathered(low, high, inos, xs, s, i);
          AmongSplit(xs, s, i);
          low, high, s := inos[i], inos[i], i;
        }
      }
      if low != 0 && high != 0 {
        NotYet(xs, s, |xs|);
        InsertGathered(low, high, inos, xs, s, |xs|);
        AmongSplit(xs, s, |xs|);
      }
    }

    /** One gathered run goes into the tree. */
    method InsertGathered(low: nat, high: nat, ghost inos: seq<nat>, ghost xs: seq<nat>, ghost s: nat, ghost e: nat)
      requires Valid() && Numbered(inos, xs, cpu, cpus) && s < e <= |xs|
      requires low == inos[s] && high == inos[e - 1] && xs[e - 1] == xs[s] + (e - 1 - s)
      requires forall i :: s <= i < e ==> !Has(ranges, xs[i])
      modifies this
      ensures Valid()
      ensures forall x: nat :: Has(ranges, x) <==> Has(old(ranges), x) || Among(xs, s, e, x)
    {
      InoLeadsBack(xs[s], cpu, cpus);
      InoLeadsBack(xs[e - 1], cpu, cpus);
      RunIsRange(xs, s, e);
      RunIsUnused(ranges, xs, s, e);
      var a, b := low / cpus, high / cpus;
      assert a == xs[s] && b == xs[e - 1];
      var ok;
      ghost var gap;
      ok, gap := FailureInsert(a, b);
    }
  }

  ghost predicate Less(a: nat, b: nat) {
    a < b
  }

  ghost predicate Growing(xs: seq<nat>) {
    forall i, j {:trigger Less(xs[i], xs[j])} :: 0 <= i < j < |xs| ==> Less(xs[i], xs[j])
  }

  ghost predicate Among(xs: seq<nat>, from: nat, to: nat, x: nat) {
    exists i :: from <= i < to && i < |xs| && xs[i] == x
  }

  lemma AmongSplit(xs: seq<nat>, s: nat, e: nat)
    requires s <= e <= |xs|
    ensures forall x: nat :: Among(xs, 0, e, x) <==> Among(xs, 0, s, x) || Among(xs, s, e, x)
  {
  }

  lemma NotYet(xs: seq<nat>, s: nat, e: nat)
    requires Growing(xs) && s <= e <= |xs|
    ensures forall i :: s <= i < e ==> !Among(xs, 0, s, xs[i])
  {
    forall i, j | s <= i < e && 0 <= j < s
      ensures xs[j] != xs[i]
    {
      assert Less(xs[j], xs[i]);
    }
  }

  /** `inos` are the inode numbers of `xs`, which grow. */
  ghost predicate Numbered(inos: seq<nat>, xs: seq<nat>, cpu: nat, cpus: nat) {
    && |inos| == |xs| && cpu < cpus && Growing(xs)
    && forall i :: 0 <= i < |xs| ==> inos[i] == InoOf(xs[i], cpu, cpus)
  }

  lemma InoGrows(inos: seq<nat>, xs: seq<nat>, cpu: nat, cpus: nat, i: nat)
    requires Numbered(inos, xs, cpu, cpus) && i < |xs| && xs[i] > 0
    ensures inos[i] > 0
    ensures i > 0 ==> (inos[i] == inos[i - 1] + cpus <==> xs[i] == xs[i - 1] + 1)
  {
    AtLeast(xs[i], cpus);
    if i > 0 {
      assert Less(xs[i - 1], xs[i]);
      NextIno(xs[i - 1], xs[i], cpus);
    }
  }

  lemma NextIno(a: nat, b: nat, cpus: nat)
    requires a < b && cpus > 0
    ensures b * cpus == a * cpus + cpus <==> b == a + 1
  {
    Distributes(b, a, cpus);
    if b - a > 1 {
      AtLeast(b - a - 1, cpus);
      Distributes(b - a, 1, cpus);
    }
  }

  /** Growing numbers that grow by no more than one at a time are a range. */
  lemma RunIsRange(xs: seq<nat>, s: nat, e: nat)
    requires s < e <= |xs| && Growing(xs) && xs[e - 1] == xs[s] + (e - 1 - s)
    ensures forall x: nat :: xs[s] <= x <= xs[e - 1] <==> Among(xs, s, e, x)
  {
    forall i | s <= i < e
      ensures xs[i] == xs[s] + (i - s)
    {
      GrowsAtLeast(xs, s, i);
      GrowsAtLeast(xs, i, e - 1);
    }
    forall x: nat | xs[s] <= x <= xs[e - 1]
      ensures Among(xs, s, e, x)
    {
      assert xs[s + (x - xs[s])] == x;
    }
  }

  lemma RunIsUnused(rs: seq<Range>, xs: seq<nat>, s: nat, e: nat)
    requires s < e <= |xs| && forall x: nat :: xs[s] <= x <= xs[e - 1] <==> Among(xs, s, e, x)
    requires forall i :: s <= i < e ==> !Has(rs, xs[i])
    ensures xs[s] <= xs[e - 1] && !Overlaps(rs, xs[s], xs[e - 1])
  {
    assert Among(xs, s, e, xs[s]);
    forall b: nat | xs[s] <= b <= xs[e - 1]
      ensures !Has(rs, b)
    {
      assert Among(xs, s, e, b);
    }
  }

  lemma {:induction false} GrowsAtLeast(xs: seq<nat>, i: nat, j: nat)
    requires i <= j < |xs| && Growing(xs)
    ensures xs[j] >= xs[i] + (j - i)
    decreases j - i
  {
    if i < j {
      GrowsAtLeast(xs, i, j - 1);
      assert Less(xs[j - 1], xs[j]);
    }
  }

  lemma LeastUnused(rs: seq<Range>, n: nat)
    requires Sorted(rs) && rs != [] && rs[0].low == 0 && n == rs[0].high + 1
    ensures !Has(rs, n) && forall x :: 0 <= x < n ==> Has(rs, x)
  {
    forall x | 0 <= x < n
      ensures Has(rs, x)
    {
      assert Within(rs[0], x);
    }
    forall i | 0 <= i < |rs|
      ensures !Within(rs[i], n)
    {
      assert i > 0 ==> Clear(rs[0], rs[i]);
    }
  }

  /** Using the next number is putting a run of one into the first gap. */
  lemma NextNumber(rs: seq<Range>, n: nat)
    requires Sorted(rs) && rs != [] && rs[0].low == 0 && n == rs[0].high + 1
    ensures var m := Merged(rs, 1, Range(n, n));
            && Fits(rs, 1, Range(n, n)) && Sorted(m) && m[0].low == 0 && m[0].high >= n
            && (forall x :: Has(m, x) <==> Has(rs, x) || x == n)
            && (|rs| > 1 && n == rs[1].low - 1 ==> m == [Range(0, rs[1].high)] + rs[2..])
            && (|rs| == 1 || n != rs[1].low - 1 ==> m == rs[0 := Range(0, n)])
  {
    var r := Range(n, n);
    assert |rs| > 1 ==> Clear(rs[0], rs[1]);
    SortedIsOrdered(rs);
    Freed(rs, 1, r);
    MergedCases(rs, 1, r);
  }

  lemma Dropped(rs: seq<Range>, k: nat, x: nat, reserved: nat)
    requires Sorted(rs) && k < |rs| && Within(rs[k], x) && rs[0].low == 0 && rs[0].high >= reserved
    ensures var t := Without(rs, k, x);
            && Sorted(t) && (forall y :: Has(t, y) <==> Has(rs, y) && y != x)
            && (t != [] && t[0].low == 0 && t[0].high >= reserved <==> x > reserved)
  {
    var t := Without(rs, k, x);
    WithoutSorted(rs, k, x);
    forall y: nat
      ensures Has(t, y) <==> Has(rs, y) && y != x
    {
      WithoutHas(rs, k, x, y);
    }
    assert !Has(t, x);
    assert t != [] ==> !Within(t[0], x);
  }

  lemma StillFirst(rs: seq<Range>, gap: nat, n: Range)
    requires Sorted(rs) && Fits(rs, gap, n) && rs != [] && rs[0].low == 0
    ensures var m := Merged(rs, gap, n); m != [] && m[0].low == 0 && m[0].high >= rs[0].high
  {
    MergedCases(rs, gap, n);
  }
}
