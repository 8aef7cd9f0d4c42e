/**
 Directory logs (dir.c, inode.c): records that add a name, records that delete one, an index from
 the hash of a name to its record, and a flag in each record that has been superseded.
 */
module Directory {

  /** A record; one without an inode number deletes the name. Names are told apart by their hash;
      `len` is the length of the name. */
  datatype Dentry = Dentry(addr: nat, name: nat, len: nat, ino: nat)

  predicate Adds(r: Dentry) {
    r.ino > 0
  }

  /** The index while a log is replayed; an insertion that finds the name taken ends the replay. */
  datatype State = State(tree: map<nat, Dentry>, ok: bool)

  /** One step of nova_rebuild_dir_inode_tree. */
  function Step(s: State, r: Dentry, invalid: set<nat>): State {
    if !s.ok then s
    else if !Adds(r) then s.(tree := s.tree - {r.name})
    else if r.addr in invalid then s
    else if r.name in s.tree then s.(ok := false)
    else s.(tree := s.tree[r.name := r])
  }

  function Replay(log: seq<Dentry>, invalid: set<nat>): State {
    if log == [] then State(map[], true)
    else Step(Replay(log[..|log| - 1], invalid), log[|log| - 1], invalid)
  }

  lemma ReplaySnoc(log: seq<Dentry>, r: Dentry, invalid: set<nat>)
    ensures Replay(log + [r], invalid) == Step(Replay(log, invalid), r, invalid)
  {
    assert (log + [r])[..|log|] == log;
  }

  // ---------------------------------------------------------------------------------------
  // The invariant of a mounted directory
  // ---------------------------------------------------------------------------------------

  predicate Live(r: Dentry, invalid: set<nat>) {
    Adds(r) && r.addr !in invalid
  }

  /** `b` may come after `a` in the log: it has another address, and if `a` is live, nothing has
      been logged about its name since. */
  ghost predicate Compatible(a: Dentry, b: Dentry, invalid: set<nat>) {
    a.addr != b.addr && (Live(a, invalid) ==> a.name != b.name)
  }

  ghost predicate Orderly(log: seq<Dentry>, invalid: set<nat>) {
    forall i, j {:trigger Compatible(log[i], log[j], invalid)} :: 0 <= i < j < |log| ==>
      Compatible(log[i], log[j], invalid)
  }

  /** The index holds exactly the live records. */
  ghost predicate Indexed(log: seq<Dentry>, invalid: set<nat>, tree: map<nat, Dentry>) {
    && (forall i :: 0 <= i < |log| && Live(log[i], invalid) ==> log[i].name in tree && tree[log[i].name] == log[i])
    && (forall n :: n in tree ==> tree[n].name == n && Live(tree[n], invalid) && tree[n] in log)
  }

  lemma OrderlyPrefix(log: seq<Dentry>, n: nat, invalid: set<nat>)
    requires Orderly(log, invalid) && n <= |log|
    ensures Orderly(log[..n], invalid)
  {
    var p := log[..n];
    forall i, j | 0 <= i < j < n
      ensures Compatible(p[i], p[j], invalid)
    {
      assert Compatible(log[i], log[j], invalid);
    }
  }

  /** With the flags in place a replay only ever adds live records: no insertion fails, and no
      delete record has anything to delete. */
  lemma {:induction false} ReplayAddsLive(log: seq<Dentry>, invalid: set<nat>)
    requires Orderly(log, invalid)
    ensures Replay(log, invalid).ok
    ensures Indexed(log, invalid, Replay(log, invalid).tree)
  {
    if log != [] {
      var k := |log| - 1;
      var p, r := log[..k], log[k];
      OrderlyPrefix(log, k, invalid);
      ReplayAddsLive(p, invalid);
      var t := Replay(p, invalid).tree;
      forall n | n in t
        ensures Live(r, invalid) || !Adds(r) ==> n != r.name
      {
        var i :| 0 <= i < k && p[i] == t[n];
        assert Compatible(log[i], log[k], invalid);
      }
      assert log == p + [r];
    }
  }

  lemma IndexIsUnique(log: seq<Dentry>, invalid: set<nat>, a: map<nat, Dentry>, b: map<nat, Dentry>)
    requires Indexed(log, invalid, a) && Indexed(log, invalid, b)
    ensures a == b
  {
    forall n | n in a
      ensures n in b && b[n] == a[n]
    {
      var i :| 0 <= i < |log| && log[i] == a[n];
    }
    forall n | n in b
      ensures n in a && a[n] == b[n]
    {
      var i :| 0 <= i < |log| && log[i] == b[n];
    }
  }

  /** A replay rebuilds the index of the mounted directory. */
  lemma ReplayIsIndex(log: seq<Dentry>, invalid: set<nat>, tree: map<nat, Dentry>)
    requires Orderly(log, invalid) && Indexed(log, invalid, tree)
    ensures Replay(log, invalid) == State(tree, true)
  {
    ReplayAddsLive(log, invalid);
    IndexIsUnique(log, invalid, tree, Replay(log, invalid).tree);
  }

  // ---------------------------------------------------------------------------------------
  // Garbage collection
  // ---------------------------------------------------------------------------------------

  function Kept(log: seq<Dentry>, drop: set<nat>): seq<Dentry> {
    if log == [] then []
    else
      var k := |log| - 1;
      Kept(log[..k], drop) + (if log[k].addr in drop then [] else [log[k]])
  }

  lemma {:induction false} KeptMembers(log: seq<Dentry>, drop: set<nat>)
    ensures forall r :: r in Kept(log, drop) <==> r in log && r.addr !in drop
  {
    if log != [] {
      var k := |log| - 1;
      KeptMembers(log[..k], drop);
      assert log == log[..k] + [log[k]];
    }
  }

  lemma {:induction false} KeptOrderly(log: seq<Dentry>, drop: set<nat>, invalid: set<nat>)
    requires Orderly(log, invalid)
    ensures Orderly(Kept(log, drop), invalid)
  {
    if log != [] {
      var k := |log| - 1;
      var p, r := log[..k], log[k];
      OrderlyPrefix(log, k, invalid);
      KeptOrderly(p, drop, invalid);
      KeptMembers(p, drop);
      var a := Kept(p, drop);
      forall i | 0 <= i < |a|
        ensures Compatible(a[i], r, invalid)
      {
        assert a[i] in p;
        var j :| 0 <= j < k && p[j] == a[i];
        assert Compatible(log[j], log[k], invalid);
      }
      var all := a + [r];
      forall i, j | 0 <= i < j < |all|
        ensures Compatible(all[i], all[j], invalid)
      {
        assert j < |a| ==> Compatible(a[i], a[j], invalid);
      }
    }
  }

  /** curr_log_entry_invalid: a collection takes superseded records and every delete record for
      garbage. */
  ghost predicate Droppable(log: seq<Dentry>, drop: set<nat>, invalid: set<nat>) {
    forall i :: 0 <= i < |log| && log[i].addr in drop ==> !Live(log[i], invalid)
  }

  lemma KeptIndexed(log: seq<Dentry>, drop: set<nat>, invalid: set<nat>, tree: map<nat, Dentry>)
    requires Indexed(log, invalid, tree) && Droppable(log, drop, invalid)
    ensures Indexed(Kept(log, drop), invalid, tree)
  {
    KeptMembers(log, drop);
    var a := Kept(log, drop);
    forall i | 0 <= i < |a| && Live(a[i], invalid)
      ensures a[i].name in tree && tree[a[i].name] == a[i]
    {
      assert a[i] in log;
    }
    forall n | n in tree
      ensures tree[n] in a
    {
      var i :| 0 <= i < |log| && log[i] == tree[n];
    }
  }

  /** Replaying a collected log still gives the live index, although delete records are gone. */
  lemma CollectedReplay(log: seq<Dentry>, drop: set<nat>, invalid: set<nat>, tree: map<nat, Dentry>)
    requires Orderly(log, invalid) && Indexed(log, invalid, tree) && Droppable(log, drop, invalid)
    ensures Replay(Kept(log, drop), invalid) == State(tree, true)
  {
    KeptOrderly(log, drop, invalid);
    KeptIndexed(log, drop, invalid, tree);
    ReplayIsIndex(Kept(log, drop), invalid, tree);
  }

  function Moved(r: Dentry, to: map<nat, nat>): Dentry {
    if r.addr in to then r.(addr := to[r.addr]) else r
  }

  function MoveLog(log: seq<Dentry>, to: map<nat, nat>): seq<Dentry> {
    seq(|log|, i requires 0 <= i < |log| => Moved(log[i], to))
  }

  function MoveTree(tree: map<nat, Dentry>, to: map<nat, nat>): map<nat, Dentry> {
    map n | n in tree :: Moved(tree[n], to)
  }

  /** Records are copied only while live, to addresses of their own. */
  ghost predicate Movable(log: seq<Dentry>, to: map<nat, nat>, invalid: set<nat>) {
    && (forall i :: 0 <= i < |log| && log[i].addr in to ==> Live(log[i], invalid) && to[log[i].addr] !in invalid)
    && (forall i, j :: 0 <= i < j < |log| ==> Moved(log[i], to).addr != Moved(log[j], to).addr)
  }

  lemma MovedOrderly(log: seq<Dentry>, to: map<nat, nat>, invalid: set<nat>)
    requires Orderly(log, invalid) && Movable(log, to, invalid)
    ensures Orderly(MoveLog(log, to), invalid)
  {
    var m := MoveLog(log, to);
    forall i, j | 0 <= i < j < |m|
      ensures Compatible(m[i], m[j], invalid)
    {
      assert Compatible(log[i], log[j], invalid);
      assert m[i] == Moved(log[i], to) && m[j] == Moved(log[j], to);
    }
  }

  lemma MovedIndexed(log: seq<Dentry>, to: map<nat, nat>, invalid: set<nat>, tree: map<nat, Dentry>)
    requires Indexed(log, invalid, tree) && Movable(log, to, invalid)
    ensures Indexed(MoveLog(log, to), invalid, MoveTree(tree, to))
  {
    var m, t := MoveLog(log, to), MoveTree(tree, to);
    forall i | 0 <= i < |m| && Live(m[i], invalid)
      ensures m[i].name in t && t[m[i].name] == m[i]
    {
      assert m[i] == Moved(log[i], to);
    }
    forall n | n in t
      ensures t[n].name == n && Live(t[n], invalid) && t[n] in m
    {
      var i :| 0 <= i < |log| && log[i] == tree[n];
      assert m[i] == t[n];
    }
  }

  lemma Appended(log: seq<Dentry>, invalid: set<nat>, r: Dentry)
    requires Orderly(log, invalid) && r.addr !in invalid
    requires forall i :: 0 <= i < |log| ==> log[i].addr != r.addr && (Live(log[i], invalid) ==> log[i].name != r.name)
    ensures Orderly(log + [r], invalid)
  {
    var all := log + [r];
    forall i, j | 0 <= i < j < |all|
      ensures Compatible(all[i], all[j], invalid)
    {
      assert j < |log| ==> Compatible(log[i], log[j], invalid);
    }
  }

  lemma Superseded(log: seq<Dentry>, invalid: set<nat>, tree: map<nat, Dentry>, was: Dentry)
    requires Orderly(log, invalid) && Indexed(log, invalid, tree) && was.name in tree && tree[was.name] == was
    ensures Orderly(log, invalid + {was.addr}) && Indexed(log, invalid + {was.addr}, tree - {was.name})
    ensures forall i :: 0 <= i < |log| && log[i].addr == was.addr ==> log[i] == was
  {
    var now := invalid + {was.addr};
    var k :| 0 <= k < |log| && log[k] == was;
    forall i, j | 0 <= i < j < |log|
      ensures Compatible(log[i], log[j], now)
    {
      assert Compatible(log[i], log[j], invalid);
    }
    forall i | 0 <= i < |log|
      ensures log[i].addr == was.addr ==> i == k
    {
      assert i < k ==> Compatible(log[i], log[k], invalid);
      assert k < i ==> Compatible(log[k], log[i], invalid);
    }
    forall n | n in tree - {was.name}
      ensures Live(tree[n], now)
    {
      var i :| 0 <= i < |log| && log[i] == tree[n];
      assert i != k;
    }
  }

  // ---------------------------------------------------------------------------------------
  // What a replay means, whatever the flags
  // ---------------------------------------------------------------------------------------

  ghost predicate DeletedIn(log: seq<Dentry>, name: nat, i: nat, n: nat) {
    exists j :: i < j < n <= |log| && !Adds(log[j]) && log[j].name == name
  }

  /** Record `i` adds a name, and up to record `n` nothing deletes it. */
  ghost predicate Standing(log: seq<Dentry>, flags: set<nat>, i: nat, n: nat) {
    i < n <= |log| && Live(log[i], flags) && !DeletedIn(log, log[i].name, i, n)
  }

  /** Record `m` adds a name that record `i` added before, with no deletion in between. */
  ghost predicate Clash(log: seq<Dentry>, flags: set<nat>, i: nat, m: nat) {
    m < |log| && Live(log[m], flags) && Standing(log, flags, i, m) && log[i].name == log[m].name
  }

  ghost predicate Clashes(log: seq<Dentry>, flags: set<nat>, n: nat) {
    exists i: nat, m: nat :: m < n && Clash(log, flags, i, m)
  }

  /** The index holds the standing records. */
  ghost predicate HoldsStanding(log: seq<Dentry>, flags: set<nat>, n: nat, tree: map<nat, Dentry>) {
    && (forall i: nat :: Standing(log, flags, i, n) ==> log[i].name in tree && tree[log[i].name] == log[i])
    && (forall x :: x in tree ==> exists i: nat :: Standing(log, flags, i, n) && log[i].name == x)
  }

  lemma StandingStep(log: seq<Dentry>, flags: set<nat>, i: nat, n: nat)
    requires i < n < |log|
    ensures Standing(log, flags, i, n + 1) <==>
              Standing(log, flags, i, n) && (Adds(log[n]) || log[n].name != log[i].name)
  {
    var x := log[i].name;
    assert DeletedIn(log, x, i, n + 1) <==> DeletedIn(log, x, i, n) || (!Adds(log[n]) && log[n].name == x) by {
      if DeletedIn(log, x, i, n) {
        var j :| i < j < n && !Adds(log[j]) && log[j].name == x;
        assert i < j < n + 1 && !Adds(log[j]) && log[j].name == x;
      }
    }
  }

  lemma StandsAtOnce(log: seq<Dentry>, flags: set<nat>, n: nat)
    requires n < |log|
    ensures Standing(log, flags, n, n + 1) <==> Live(log[n], flags)
  {
  }

  lemma ClashesStep(log: seq<Dentry>, flags: set<nat>, n: nat)
    requires n < |log|
    ensures Clashes(log, flags, n + 1) <==> Clashes(log, flags, n) || exists i: nat :: Clash(log, flags, i, n)
  {
    if Clashes(log, flags, n) {
      var i: nat, m: nat :| m < n && Clash(log, flags, i, m);
      assert m < n + 1 && Clash(log, flags, i, m);
    }
    if i: nat :| Clash(log, flags, i, n) {
      assert n < n + 1 && Clash(log, flags, i, n);
    }
  }

  /** For any log and any flags: a replay succeeds if and only if no name is added twice without a
      deletion in between, and then it finds exactly the records that still stand. */
  lemma {:induction false} ReplayMeans(log: seq<Dentry>, flags: set<nat>, n: nat)
    requires n <= |log|
    ensures Replay(log[..n], flags).ok <==> !Clashes(log, flags, n)
    ensures Replay(log[..n], flags).ok ==> HoldsStanding(log, flags, n, Replay(log[..n], flags).tree)
  {
    if n > 0 {
      var k := n - 1;
      ReplayMeans(log, flags, k);
      assert log[..n] == log[..k] + [log[k]];
      ReplaySnoc(log[..k], log[k], flags);
      ClashesStep(log, flags, k);
      if Replay(log[..k], flags).ok {
        MeansStep(log, flags, k, Replay(log[..k], flags).tree);
      }
    }
  }

  lemma MeansStep(log: seq<Dentry>, flags: set<nat>, k: nat, t: map<nat, Dentry>)
    requires k < |log| && HoldsStanding(log, flags, k, t)
    ensures var s := Step(State(t, true), log[k], flags);
            && (s.ok <==> !exists i: nat :: Clash(log, flags, i, k))
            && (s.ok ==> HoldsStanding(log, flags, k + 1, s.tree))
  {
    var r, s := log[k], Step(State(t, true), log[k], flags);
    if Live(r, flags) && r.name in t {
      var i: nat :| Standing(log, flags, i, k) && log[i].name == r.name;
      assert Clash(log, flags, i, k);
    }
    if s.ok {
      StandsAtOnce(log, flags, k);
      forall i: nat | Standing(log, flags, i, k + 1)
        ensures log[i].name in s.tree && s.tree[log[i].name] == log[i]
      {
        if i < k {
          StandingStep(log, flags, i, k);
        }
      }
      forall x | x in s.tree
        ensures exists i: nat :: Standing(log, flags, i, k + 1) && log[i].name == x
      {
        if Live(r, flags) && x == r.name {
          assert Standing(log, flags, k, k + 1) && log[k].name == x;
        } else {
          var i: nat :| Standing(log, flags, i, k) && log[i].name == x;
          StandingStep(log, flags, i, k);
          assert Standing(log, flags, i, k + 1) && log[i].name == x;
        }
      }
    }
  }

  // ---------------------------------------------------------------------------------------
  // Flags that did not get to NVMM
  // ---------------------------------------------------------------------------------------

  /** Between records `i` and `j` a replay adds the name again. */
  ghost predicate AddedIn(log: seq<Dentry>, flags: set<nat>, name: nat, i: nat, j: nat) {
    exists k :: i < k < j <= |log| && Live(log[k], flags) && log[k].name == name
  }

  /** Record `i` is followed by a deletion of its name before a replay adds the name again. */
  ghost predicate Undone(log: seq<Dentry>, flags: set<nat>, i: nat) {
    exists j: nat :: UndoneAt(log, flags, i, j)
  }

  ghost predicate UndoneAt(log: seq<Dentry>, flags: set<nat>, i: nat, j: nat) {
    && i < j < |log| && !Adds(log[j]) && log[j].name == log[i].name
    && !AddedIn(log, flags, log[i].name, i, j)
  }

  /** Record `i` was superseded, but its flag is lost. */
  ghost predicate LostAt(log: seq<Dentry>, invalid: set<nat>, lost: set<nat>, i: nat) {
    i < |log| && Adds(log[i]) && log[i].addr in invalid && log[i].addr in lost
  }

  ghost predicate AllUndone(log: seq<Dentry>, invalid: set<nat>, lost: set<nat>) {
    forall i: nat :: LostAt(log, invalid, lost, i) ==> Undone(log, invalid - lost, i)
  }

  /** A live record stands at the end, whichever flags are lost. */
  lemma LiveStands(log: seq<Dentry>, invalid: set<nat>, lost: set<nat>, i: nat, n: nat)
    requires Orderly(log, invalid) && i < n <= |log| && Live(log[i], invalid)
    ensures Standing(log, invalid - lost, i, n)
  {
    forall j | i < j < n
      ensures log[j].name != log[i].name
    {
      assert Compatible(log[i], log[j], invalid);
    }
  }

  lemma {:induction false} FirstDeletion(log: seq<Dentry>, name: nat, i: nat, n: nat) returns (j: nat)
    requires i < n <= |log| && DeletedIn(log, name, i, n)
    ensures i < j < n && !Adds(log[j]) && log[j].name == name && !DeletedIn(log, name, i, j)
  {
    if DeletedIn(log, name, i, n - 1) {
      j := FirstDeletion(log, name, i, n - 1);
    } else {
      j :| i < j < n && !Adds(log[j]) && log[j].name == name;
      assert j == n - 1;
    }
  }

  lemma ClashIsNotUndone(log: seq<Dentry>, invalid: set<nat>, lost: set<nat>, i: nat, m: nat)
    requires Orderly(log, invalid) && Clash(log, invalid - lost, i, m)
    ensures LostAt(log, invalid, lost, i) && !Undone(log, invalid - lost, i)
  {
    assert Compatible(log[i], log[m], invalid);
    forall j: nat
      ensures !UndoneAt(log, invalid - lost, i, j)
    {
    }
  }

  lemma UndoneIffDeleted(log: seq<Dentry>, invalid: set<nat>, lost: set<nat>, i: nat)
    requires LostAt(log, invalid, lost, i) && !Clashes(log, invalid - lost, |log|)
    ensures Undone(log, invalid - lost, i) <==> DeletedIn(log, log[i].name, i, |log|)
  {
    var now, x := invalid - lost, log[i].name;
    if Undone(log, now, i) {
      var j: nat :| UndoneAt(log, now, i, j);
      assert i < j < |log| && !Adds(log[j]) && log[j].name == x;
    }
    if DeletedIn(log, x, i, |log|) {
      var j := FirstDeletion(log, x, i, |log|);
      if AddedIn(log, now, x, i, j) {
        var k :| i < k < j && Live(log[k], now) && log[k].name == x;
        assert !DeletedIn(log, x, i, k);
        assert Clash(log, now, i, k);
      }
      assert UndoneAt(log, now, i, j);
    }
  }

  /** After a crash that lost any of the flags, a replay finds the live index if and only if every
      record whose flag is lost is followed by a deletion of its name before the name is added
      again by a record that the replay takes for live. */
  lemma LostFlagsHarmlessIff(log: seq<Dentry>, invalid: set<nat>, tree: map<nat, Dentry>, lost: set<nat>)
    requires Orderly(log, invalid) && Indexed(log, invalid, tree)
    ensures Replay(log, invalid - lost) == State(tree, true) <==> AllUndone(log, invalid, lost)
  {
    var now, n := invalid - lost, |log|;
    assert log[..n] == log;
    ReplayMeans(log, now, n);
    if AllUndone(log, invalid, lost) {
      UndoneIsRight(log, invalid, tree, lost);
    }
    if Replay(log, now) == State(tree, true) {
      forall i: nat | LostAt(log, invalid, lost, i)
        ensures Undone(log, now, i)
      {
        UndoneIffDeleted(log, invalid, lost, i);
        assert Standing(log, now, i, n) ==> tree[log[i].name] == log[i];
      }
    }
  }

  lemma UndoneIsRight(log: seq<Dentry>, invalid: set<nat>, tree: map<nat, Dentry>, lost: set<nat>)
    requires Orderly(log, invalid) && Indexed(log, invalid, tree) && AllUndone(log, invalid, lost)
    ensures Replay(log, invalid - lost) == State(tree, true)
  {
    var now, n := invalid - lost, |log|;
    assert log[..n] == log;
    ReplayMeans(log, now, n);
    forall i: nat, m: nat | m < n
      ensures !Clash(log, now, i, m)
    {
      if Clash(log, now, i, m) {
        ClashIsNotUndone(log, invalid, lost, i, m);
      }
    }
    var t := Replay(log, now).tree;
    forall i: nat | Standing(log, now, i, n)
      ensures Live(log[i], invalid)
    {
      if !Live(log[i], invalid) {
        assert LostAt(log, invalid, lost, i);
        UndoneIffDeleted(log, invalid, lost, i);
      }
    }
    forall i | 0 <= i < n && Live(log[i], invalid)
      ensures log[i].name in t && t[log[i].name] == log[i]
    {
      LiveStands(log, invalid, lost, i, n);
    }
    forall x | x in t
      ensures t[x].name == x && Live(t[x], invalid) && t[x] in log
    {
      var i: nat :| Standing(log, now, i, n) && log[i].name == x;
      assert t[x] == log[i];
    }
    assert Indexed(log, invalid, t);
    IndexIsUnique(log, invalid, tree, t);
  }

  // ---------------------------------------------------------------------------------------
  // Flags that got to NVMM too early
  // ---------------------------------------------------------------------------------------

  // A flag is set before the removal is committed; a rename sets two. If a flag gets to NVMM and
  // the transaction does not, the name is lost.

  lemma EarlyIndexed(log: seq<Dentry>, invalid: set<nat>, tree: map<nat, Dentry>, early: set<nat>)
    requires Orderly(log, invalid) && Indexed(log, invalid, tree)
    ensures Orderly(log, invalid + early)
    ensures Indexed(log, invalid + early, map n | n in tree && tree[n].addr !in early :: tree[n])
  {
    var now := invalid + early;
    forall i, j | 0 <= i < j < |log|
      ensures Compatible(log[i], log[j], now)
    {
      assert Compatible(log[i], log[j], invalid);
    }
  }

  /** Any set of early flags takes exactly the names of their records out of the index. */
  lemma EarlyFlagsLoseNames(log: seq<Dentry>, invalid: set<nat>, tree: map<nat, Dentry>, early: set<nat>)
    requires Orderly(log, invalid) && Indexed(log, invalid, tree)
    ensures Replay(log, invalid + early) == State(map n | n in tree && tree[n].addr !in early :: tree[n], true)
  {
    EarlyIndexed(log, invalid, tree, early);
    ReplayIsIndex(log, invalid + early, map n | n in tree && tree[n].addr !in early :: tree[n]);
  }

  /** Flags matter only for records that add a name. */
  lemma {:induction false} ReplaySame(log: seq<Dentry>, a: set<nat>, b: set<nat>)
    requires forall i :: 0 <= i < |log| && Adds(log[i]) ==> (log[i].addr in a <==> log[i].addr in b)
    ensures Replay(log, a) == Replay(log, b)
  {
    if log != [] {
      ReplaySame(log[..|log| - 1], a, b);
    }
  }

  /** After a crash that lost any of the flags and kept any that were set too early, a replay finds
      the live index if and only if no early flag is that of a live record, and every record whose
      flag is lost is followed by a deletion of its name in time. */
  lemma FlagsHarmlessIff(log: seq<Dentry>, invalid: set<nat>, tree: map<nat, Dentry>, lost: set<nat>, early: set<nat>)
    requires Orderly(log, invalid) && Indexed(log, invalid, tree)
    ensures Replay(log, invalid - lost + early) == State(tree, true) <==>
              (forall n :: n in tree ==> tree[n].addr !in early) && AllUndone(log, invalid, lost - early)
  {
    var now := invalid - lost + early;
    if Replay(log, now) == State(tree, true) {
      forall n | n in tree
        ensures tree[n].addr !in early
      {
        assert log[..|log|] == log;
        ReplayMeans(log, now, |log|);
        var i: nat :| Standing(log, now, i, |log|) && log[i].name == n;
      }
    }
    if forall n :: n in tree ==> tree[n].addr !in early {
      forall i | 0 <= i < |log| && Adds(log[i])
        ensures log[i].addr in now <==> log[i].addr in invalid - (lost - early)
      {
        assert Live(log[i], invalid) ==> tree[log[i].name] == log[i];
      }
      ReplaySame(log, now, invalid - (lost - early));
      LostFlagsHarmlessIff(log, invalid, tree, lost - early);
    }
  }
}
