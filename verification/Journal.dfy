/**
 The lite journal of journal.c: one ring of undo records per CPU. A transaction saves the old
 values of up to eight words, publishes them by moving the tail, stores the new values in place
 and commits by moving the head. A mount undoes what it finds between head and tail.
 */
module Journal {
  import FileLog

  const PAGE: nat := FileLog.PAGE

  /** The highest byte of a recorded address is the size of the word. */
  const TAG: nat := 0x100_0000_0000_0000

  const SLOT: nat := 64

  // ---------------------------------------------------------------------------------------
  // Records
  // ---------------------------------------------------------------------------------------

  /** Four words and their old values; an address of zero is an unused place. */
  datatype Record = Record(addrs: seq<nat>, values: seq<nat>)

  predicate Formed(e: Record) {
    |e.addrs| == 4 && |e.values| == 4
  }

  /** Size of the word at place `i`, as the tag has it. */
  function Size(e: Record, i: nat): nat
    requires Formed(e) && i < 4
  {
    e.addrs[i] / TAG
  }

  /** Where the word is. */
  function Where(e: Record, i: nat): nat
    requires Formed(e) && i < 4
  {
    e.addrs[i] % TAG
  }

  /** Places with another tag are skipped. */
  predicate Restores(e: Record, i: nat)
    requires Formed(e) && i < 4
  {
    Size(e, i) in {1, 2, 4, 8}
  }

  /** The value as the cast to the size of the word leaves it. */
  function Value(e: Record, i: nat): nat
    requires Formed(e) && i < 4
  {
    match Size(e, i)
    case 1 => e.values[i] % 0x100
    case 2 => e.values[i] % 0x1_0000
    case 4 => e.values[i] % 0x1_0000_0000
    case _ => e.values[i] % 0x1_0000_0000_0000_0000
  }

  type Memory = map<nat, nat>

  /** Every word that the record restores gets the value it has in `spec`. */
  ghost predicate Faithful(e: Record, spec: Memory) {
    && Formed(e)
    && forall i :: 0 <= i < 4 && Restores(e, i) ==> Where(e, i) in spec && spec[Where(e, i)] == Value(e, i)
  }

  ghost predicate Names(e: Record, w: nat) {
    Formed(e) && exists i :: 0 <= i < 4 && Restores(e, i) && Where(e, i) == w
  }

  // ---------------------------------------------------------------------------------------
  // Rings
  // ---------------------------------------------------------------------------------------

  /** next_lite_journal: the ring is one page. */
  function NextSlot(p: nat): nat {
    if p % PAGE + SLOT >= PAGE then p - p % PAGE else p + SLOT
  }

  datatype Ring = Ring(head: nat, tail: nat, slots: map<nat, Record>)

  predicate Idle(r: Ring) {
    r.head == r.tail
  }

  /** The ring has at most two records to undo. */
  predicate Sane(r: Ring) {
    r.tail in {r.head, NextSlot(r.head), NextSlot(NextSlot(r.head))}
  }

  /** The records that a mount would undo. */
  function Pending(r: Ring): seq<nat> {
    if r.tail == r.head then []
    else if r.tail == NextSlot(r.head) then [r.head]
    else [r.head, NextSlot(r.head)]
  }

  /** The ring has 64 slots in a circle. */
  lemma NextOfSlot(b: nat, k: nat)
    requires b % PAGE == 0 && k < 64
    ensures NextSlot(b + SLOT * k) == b + SLOT * ((k + 1) % 64)
  {
    assert (b + SLOT * k) % PAGE == SLOT * k by {
      assert b == b / PAGE * PAGE;
      assert b + SLOT * k == PAGE * (b / PAGE) + SLOT * k;
    }
    assert k + 1 < 64 ==> (k + 1) % 64 == k + 1;
  }

  predicate OnSlot(p: nat) {
    p % SLOT == 0
  }

  /** The three positions differ, so that the distance tells how many records there are. */
  lemma SlotsDiffer(p: nat)
    requires OnSlot(p)
    ensures NextSlot(p) != p && NextSlot(NextSlot(p)) != p && OnSlot(NextSlot(p))
  {
    var b, k := SlotOf(p);
    NextOfSlot(b, k);
    NextOfSlot(b, (k + 1) % 64);
    assert k < 62 ==> (k + 1) % 64 == k + 1 && (k + 2) % 64 == k + 2;
  }

  /** The page of the ring and the number of the slot in it. */
  lemma SlotOf(p: nat) returns (b: nat, k: nat)
    requires OnSlot(p)
    ensures b % PAGE == 0 && k < 64 && p == b + SLOT * k
  {
    var n := p / SLOT;
    b, k := n / 64 * PAGE, n % 64;
    assert p == SLOT * n && n == n / 64 * 64 + k;
  }

  // ---------------------------------------------------------------------------------------
  // What a crash leaves
  // ---------------------------------------------------------------------------------------

  datatype Durable = Durable(mem: Memory, rings: seq<Ring>)

  /** Word `w` is named by a record that a mount would undo. */
  ghost predicate Logged(r: Ring, w: nat) {
    exists k :: 0 <= k < |Pending(r)| && Pending(r)[k] in r.slots && Names(r.slots[Pending(r)[k]], w)
  }

  ghost predicate RingOk(r: Ring, spec: Memory) {
    && OnSlot(r.head) && Sane(r)
    && forall k :: 0 <= k < |Pending(r)| ==> Pending(r)[k] in r.slots && Faithful(r.slots[Pending(r)[k]], spec)
  }

  /** A mount that undoes all rings arrives at `spec`. */
  ghost predicate Recoverable(d: Durable, spec: Memory) {
    && d.mem.Keys == spec.Keys
    && (forall c :: 0 <= c < |d.rings| ==> RingOk(d.rings[c], spec))
    && (forall w :: w in spec && d.mem[w] != spec[w] ==> exists c :: 0 <= c < |d.rings| && Logged(d.rings[c], w))
  }

  // ---------------------------------------------------------------------------------------
  // Runs
  // ---------------------------------------------------------------------------------------

  /** One durable store, or a crash. `Fill` writes a record to an idle ring; `Publish` moves the
      tail and opens a transaction that is to store `news`; `Poke` is one of these stores, in
      whatever order they get to NVMM; `Commit` moves the head once all have got there; `Undo`
      and `Reset` are a mount's. The steps of different CPUs come in any order. */
  datatype Step =
    | Fill(cpu: nat, slot: nat, e: Record)
    | Publish(cpu: nat, count: nat, news: Memory)
    | Poke(cpu: nat, w: nat)
    | Commit(cpu: nat)
    | Crash(cpu: nat)
    | Undo(cpu: nat, k: nat, i: nat)
    | Reset(cpu: nat)

  /** The durable state; the memory to which exactly the committed transactions have been
      applied; and the stores that each open transaction is to make. */
  datatype Machine = Machine(d: Durable, spec: Memory, open: map<nat, Memory>)

  function WithRing(d: Durable, c: nat, r: Ring): Durable
    requires c < |d.rings|
  {
    d.(rings := d.rings[c := r])
  }

  function TailAfter(p: nat, count: nat): nat {
    if count == 1 then NextSlot(p) else NextSlot(NextSlot(p))
  }

  /** What a transaction saves are the present values of words that no other open transaction
      touches: the callers hold the locks of the inodes. */
  ghost predicate Saves(d: Durable, c: nat, e: Record) {
    && Faithful(e, d.mem)
    && forall w, o :: 0 <= o < |d.rings| && Names(e, w) ==> !Logged(d.rings[o], w)
  }

  ghost predicate Enabled(m: Machine, st: Step) {
    var d := m.d;
    && st.cpu < |d.rings|
    && var r := d.rings[st.cpu];
    match st
    case Fill(_, slot, e) => Idle(r)
    case Publish(c, n, news) =>
      && Idle(r) && n in {1, 2}
      && r.head in r.slots && Saves(d, c, r.slots[r.head])
      && (n == 2 ==> NextSlot(r.head) in r.slots && Saves(d, c, r.slots[NextSlot(r.head)]))
      && (forall w :: w in news <==> Logged(r.(tail := TailAfter(r.head, n)), w))
    case Poke(c, w) => c in m.open && w in m.open[c]
    case Commit(c) => c in m.open && forall w :: w in m.open[c] ==> w in d.mem && d.mem[w] == m.open[c][w]
    case Crash(_) => true
    case Undo(c, k, i) => c !in m.open && k < |Pending(r)| && i < 4 && Pending(r)[k] in r.slots
                          && Formed(r.slots[Pending(r)[k]]) && Restores(r.slots[Pending(r)[k]], i)
    case Reset(c) => c !in m.open && forall w :: w in d.mem && Logged(r, w) ==> w in m.spec && d.mem[w] == m.spec[w]
  }

  ghost function After(m: Machine, st: Step): Machine
    requires Enabled(m, st)
  {
    var d, c := m.d, st.cpu;
    var r := d.rings[c];
    match st
    case Fill(_, slot, e) => m.(d := WithRing(d, c, r.(slots := r.slots[slot := e])))
    case Publish(_, n, news) => m.(d := WithRing(d, c, r.(tail := TailAfter(r.head, n))), open := m.open[c := news])
    case Poke(_, w) => m.(d := d.(mem := d.mem[w := m.open[c][w]]))
    case Commit(_) => Machine(WithRing(d, c, r.(head := r.tail)), m.spec + m.open[c], m.open - {c})
    case Crash(_) => m.(open := map[])
    case Undo(_, k, i) =>
      var e := r.slots[Pending(r)[k]];
      m.(d := d.(mem := d.mem[Where(e, i) := Value(e, i)]))
    case Reset(_) => m.(d := WithRing(d, c, r.(tail := r.head)))
  }

  /** No word is named by two rings. */
  ghost predicate Apart(d: Durable) {
    forall a, b, w :: 0 <= a < b < |d.rings| && Logged(d.rings[a], w) ==> !Logged(d.rings[b], w)
  }

  /** An open transaction stores to exactly the words that its ring names. */
  ghost predicate Journaled(m: Machine) {
    forall c :: c in m.open ==> c < |m.d.rings| && forall w :: w in m.open[c] <==> Logged(m.d.rings[c], w)
  }

  ghost predicate Good(m: Machine) {
    Recoverable(m.d, m.spec) && Apart(m.d) && Journaled(m)
  }

  lemma IdleLogsNothing(r: Ring, w: nat)
    requires Idle(r)
    ensures !Logged(r, w)
  {
  }

  lemma IdleIsGood(d: Durable)
    requires forall c :: 0 <= c < |d.rings| ==> Idle(d.rings[c]) && d.rings[c].head % PAGE == 0
    ensures Good(Machine(d, d.mem, map[]))
  {
    forall c | 0 <= c < |d.rings|
      ensures RingOk(d.rings[c], d.mem)
    {
      assert d.rings[c].head == d.rings[c].head / PAGE * 64 * SLOT;
    }
  }

  lemma FillKeeps(m: Machine, st: Step)
    requires Good(m) && st.Fill? && Enabled(m, st)
    ensures Good(After(m, st))
  {
    var d, n := m.d, After(m, st).d;
    forall c, w | 0 <= c < |d.rings|
      ensures Logged(n.rings[c], w) <==> Logged(d.rings[c], w)
    {
    }
  }

  lemma PokeKeeps(m: Machine, st: Step)
    requires Good(m) && st.Poke? && Enabled(m, st)
    ensures Good(After(m, st))
  {
  }

  lemma UndoKeeps(m: Machine, st: Step)
    requires Good(m) && st.Undo? && Enabled(m, st)
    ensures Good(After(m, st))
  {
    var r := m.d.rings[st.cpu];
    assert RingOk(r, m.spec);
    assert Faithful(r.slots[Pending(r)[st.k]], m.spec);
  }

  lemma ResetKeeps(m: Machine, st: Step)
    requires Good(m) && st.Reset? && Enabled(m, st)
    ensures Good(After(m, st))
  {
    var d, n := m.d, After(m, st).d;
    assert Idle(n.rings[st.cpu]);
    forall w | w in m.spec && n.mem[w] != m.spec[w]
      ensures exists c :: 0 <= c < |n.rings| && Logged(n.rings[c], w)
    {
      var c :| 0 <= c < |d.rings| && Logged(d.rings[c], w);
      assert c != st.cpu;
      assert n.rings[c] == d.rings[c];
    }
  }

  lemma PublishedPending(r: Ring, n: nat)
    requires OnSlot(r.head) && n in {1, 2}
    ensures var p := r.(tail := TailAfter(r.head, n));
            Sane(p) && Pending(p) == if n == 1 then [r.head] else [r.head, NextSlot(r.head)]
  {
    SlotsDiffer(r.head);
    SlotsDiffer(NextSlot(r.head));
  }

  lemma PublishedLogs(r: Ring, n: nat)
    requires OnSlot(r.head) && n in {1, 2} && r.head in r.slots && (n == 2 ==> NextSlot(r.head) in r.slots)
    ensures forall w :: Logged(r.(tail := TailAfter(r.head, n)), w)
                        <==> Names(r.slots[r.head], w) || (n == 2 && Names(r.slots[NextSlot(r.head)], w))
  {
    PublishedPending(r, n);
    var p := r.(tail := TailAfter(r.head, n));
    assert Pending(p)[0] == r.head;
    assert n == 2 ==> Pending(p)[1] == NextSlot(r.head);
  }

  /** What is saved while no open transaction touches it is the committed value. */
  lemma SavedIsCommitted(m: Machine, c: nat, e: Record)
    requires Good(m) && Saves(m.d, c, e)
    ensures Faithful(e, m.spec)
  {
    forall i | 0 <= i < 4 && Restores(e, i)
      ensures Where(e, i) in m.spec && m.spec[Where(e, i)] == Value(e, i)
    {
      assert Names(e, Where(e, i));
    }
  }

  lemma PublishKeeps(m: Machine, st: Step)
    requires Good(m) && st.Publish? && Enabled(m, st)
    ensures Good(After(m, st))
  {
    var d, n, c := m.d, After(m, st).d, st.cpu;
    var r, p := d.rings[c], n.rings[c];
    assert RingOk(r, m.spec);
    assert p == r.(tail := TailAfter(r.head, st.count));
    PublishedPending(r, st.count);
    SavedIsCommitted(m, c, r.slots[r.head]);
    if st.count == 2 {
      SavedIsCommitted(m, c, r.slots[NextSlot(r.head)]);
    }
    assert RingOk(p, m.spec);
    forall w, o | Logged(p, w) && 0 <= o < |d.rings|
      ensures !Logged(d.rings[o], w)
    {
    }
    assert forall o :: 0 <= o < |d.rings| && o != c ==> n.rings[o] == d.rings[o];
    forall w | w in m.spec && n.mem[w] != m.spec[w]
      ensures exists o :: 0 <= o < |n.rings| && Logged(n.rings[o], w)
    {
      var o :| 0 <= o < |d.rings| && Logged(d.rings[o], w);
      IdleLogsNothing(r, w);
      assert n.rings[o] == d.rings[o];
    }
  }

  /** A commit applies all stores of the transaction to the committed memory at once. */
  lemma CommitKeeps(m: Machine, st: Step)
    requires Good(m) && st.Commit? && Enabled(m, st)
    ensures Good(After(m, st))
  {
    var d, c, l := m.d, st.cpu, After(m, st);
    var n, r := l.d, d.rings[c];
    assert RingOk(r, m.spec);
    LoggedAreWords(r, m.spec);
    assert l.spec.Keys == m.spec.Keys;
    forall o | 0 <= o < |d.rings|
      ensures RingOk(n.rings[o], l.spec)
    {
      if o == c {
        NextStaysOnSlot(r);
      } else {
        OthersStayFaithful(m, c, o);
      }
    }
    forall w | w in l.spec && n.mem[w] != l.spec[w]
      ensures exists o :: 0 <= o < |n.rings| && Logged(n.rings[o], w)
    {
      var o :| 0 <= o < |d.rings| && Logged(d.rings[o], w);
      assert o != c;
      assert n.rings[o] == d.rings[o];
    }
    assert forall w :: !Logged(n.rings[c], w);
    assert forall o :: 0 <= o < |d.rings| && o != c ==> n.rings[o] == d.rings[o];
  }

  lemma LoggedAreWords(r: Ring, spec: Memory)
    requires RingOk(r, spec)
    ensures forall w :: Logged(r, w) ==> w in spec
  {
  }

  lemma NextStaysOnSlot(r: Ring)
    requires OnSlot(r.head) && Sane(r)
    ensures OnSlot(r.tail)
  {
    SlotsDiffer(r.head);
    SlotsDiffer(NextSlot(r.head));
  }

  lemma OthersStayFaithful(m: Machine, c: nat, o: nat)
    requires Good(m) && c in m.open && o < |m.d.rings| && o != c
    ensures RingOk(m.d.rings[o], m.spec + m.open[c])
  {
    var r, p, spec := m.d.rings[c], m.d.rings[o], m.spec + m.open[c];
    assert RingOk(p, m.spec);
    forall k | 0 <= k < |Pending(p)|
      ensures Faithful(p.slots[Pending(p)[k]], spec)
    {
      var e := p.slots[Pending(p)[k]];
      forall i | 0 <= i < 4 && Restores(e, i)
        ensures Where(e, i) in spec && spec[Where(e, i)] == Value(e, i)
      {
        assert Names(e, Where(e, i));
        assert Logged(p, Where(e, i));
        assert !Logged(r, Where(e, i));
      }
    }
  }

  lemma StepKeeps(m: Machine, st: Step)
    requires Good(m) && Enabled(m, st)
    ensures Good(After(m, st))
  {
    match st
    case Fill(_, _, _) => FillKeeps(m, st);
    case Publish(_, _, _) => PublishKeeps(m, st);
    case Poke(_, _) => PokeKeeps(m, st);
    case Commit(_) => CommitKeeps(m, st);
    case Crash(_) =>
    case Undo(_, _, _) => UndoKeeps(m, st);
    case Reset(_) => ResetKeeps(m, st);
  }

  /** The machine can take these steps one after the other. */
  ghost predicate CanRun(m: Machine, steps: seq<Step>)
    decreases |steps|
  {
    steps == [] || (Enabled(m, steps[0]) && CanRun(After(m, steps[0]), steps[1..]))
  }

  ghost function Run(m: Machine, steps: seq<Step>): Machine
    requires CanRun(m, steps)
    decreases |steps|
  {
    if steps == [] then m else Run(After(m, steps[0]), steps[1..])
  }

  /** Whatever the CPUs do and whenever a mount was cut short: each state on the way can be
      recovered to the memory in which exactly the committed transactions have taken place. */
  lemma {:induction false} EveryRunIsRecoverable(m: Machine, steps: seq<Step>)
    requires Good(m) && CanRun(m, steps)
    ensures Good(Run(m, steps))
    decreases |steps|
  {
    if steps != [] {
      StepKeeps(m, steps[0]);
      EveryRunIsRecoverable(After(m, steps[0]), steps[1..]);
    }
  }

  // ---------------------------------------------------------------------------------------
  // The code
  // ---------------------------------------------------------------------------------------

  /** Where undoing writes. The code passes the recorded address on with its tag, so that it
      lands outside the device; `masked` stands for the address without the tag. */
  function Target(e: Record, i: nat, masked: bool): nat
    requires Formed(e) && i < 4
  {
    if masked then Where(e, i) else e.addrs[i]
  }

  function UndoFirst(mem: Memory, e: Record, n: nat, masked: bool): Memory
    requires Formed(e) && n <= 4
  {
    if n == 0 then mem
    else
      var m := UndoFirst(mem, e, n - 1, masked);
      if Restores(e, n - 1) then m[Target(e, n - 1, masked) := Value(e, n - 1)] else m
  }

  /** Undoing restores committed values only, and all that the record names. */
  lemma {:induction false} UndoRestores(mem: Memory, e: Record, n: nat, spec: Memory)
    requires Faithful(e, spec) && n <= 4 && mem.Keys == spec.Keys
    ensures UndoFirst(mem, e, n, true).Keys == spec.Keys
    ensures forall w :: w in spec ==> UndoFirst(mem, e, n, true)[w] in {mem[w], spec[w]}
    ensures forall i :: 0 <= i < n && Restores(e, i) ==> UndoFirst(mem, e, n, true)[Where(e, i)] == spec[Where(e, i)]
  {
    if n > 0 {
      UndoRestores(mem, e, n - 1, spec);
    }
  }

  /** With the tag left in, no word of the device is written. */
  lemma {:induction false} TaggedUndoMisses(mem: Memory, e: Record, n: nat, w: nat)
    requires Formed(e) && n <= 4 && w < TAG
    ensures w in UndoFirst(mem, e, n, false) <==> w in mem
    ensures w in mem ==> UndoFirst(mem, e, n, false)[w] == mem[w]
  {
    if n > 0 {
      TaggedUndoMisses(mem, e, n - 1, w);
    }
  }

  /** nova_undo_lite_journal_entry and nova_recover_lite_journal_entry. */
  method UndoEntry(mem: Memory, e: Record, masked: bool) returns (now: Memory)
    requires Formed(e)
    ensures now == UndoFirst(mem, e, 4, masked)
  {
    now := mem;
    for i := 0 to 4
      invariant now == UndoFirst(mem, e, i, masked)
    {
      var size := e.addrs[i] / TAG;
      if e.addrs[i] != 0 && size != 0 {
        var at := if masked then e.addrs[i] % TAG else e.addrs[i];
        match size {
          case 1 => now := now[at := e.values[i] % 0x100];
          case 2 => now := now[at := e.values[i] % 0x1_0000];
          case 4 => now := now[at := e.values[i] % 0x1_0000_0000];
          case 8 => now := now[at := e.values[i] % 0x1_0000_0000_0000_0000];
          case _ =>
        }
      }
    }
  }

  /** The records between head and tail are there to be read. */
  ghost predicate Legible(r: Ring) {
    forall k :: 0 <= k < |Pending(r)| ==> Pending(r)[k] in r.slots && Formed(r.slots[Pending(r)[k]])
  }

  ghost predicate AllLegible(d: Durable) {
    forall c :: 0 <= c < |d.rings| ==> Legible(d.rings[c])
  }

  /** Memory after the pending records of a ring have been undone, head first. */
  function UndoRing(mem: Memory, r: Ring, n: nat, masked: bool): Memory
    requires Legible(r) && n <= |Pending(r)|
  {
    if n == 0 then mem else UndoFirst(UndoRing(mem, r, n - 1, masked), r.slots[Pending(r)[n - 1]], 4, masked)
  }

  /** The state after the first `n` rings have been recovered. */
  function Recovered(d: Durable, n: nat, masked: bool): (l: Durable)
    requires AllLegible(d) && n <= |d.rings|
    ensures |l.rings| == |d.rings|
    ensures forall c :: 0 <= c < |d.rings| ==>
              l.rings[c] == if c < n then d.rings[c].(tail := d.rings[c].head) else d.rings[c]
  {
    if n == 0 then d
    else
      var p, r := Recovered(d, n - 1, masked), d.rings[n - 1];
      Durable(UndoRing(p.mem, r, |Pending(r)|, masked), p.rings[n - 1 := r.(tail := r.head)])
  }

  ghost function Filled(r: Ring, e1: Record, e2: Record, count: nat): Ring {
    var f := r.slots[r.head := e1];
    r.(slots := if count == 2 then f[NextSlot(r.head) := e2] else f)
  }

  /** The stores that open a transaction: one or two records, then the tail. */
  lemma Creation(m: Machine, c: nat, e1: Record, e2: Record, count: nat, news: Memory) returns (steps: seq<Step>)
    requires Good(m) && c < |m.d.rings| && Idle(m.d.rings[c]) && count in {1, 2}
    requires Saves(m.d, c, e1) && (count == 2 ==> Saves(m.d, c, e2))
    requires forall w :: w in news <==> Names(e1, w) || (count == 2 && Names(e2, w))
    ensures CanRun(m, steps) && forall i :: 0 <= i < |steps| ==> !steps[i].Commit?
    ensures var r := Filled(m.d.rings[c], e1, e2, count);
            Run(m, steps) == Machine(WithRing(m.d, c, r.(tail := TailAfter(r.head, count))), m.spec, m.open[c := news])
  {
    var r := m.d.rings[c];
    assert RingOk(r, m.spec);
    SlotsDiffer(r.head);
    var n: Machine;
    n, steps := OneStep(m, [], m, Fill(c, r.head, e1));
    if count == 2 {
      n, steps := OneStep(m, steps, n, Fill(c, NextSlot(r.head), e2));
    }
    var f := Filled(r, e1, e2, count);
    assert n == m.(d := WithRing(m.d, c, f));
    StillSaves(m.d, c, f, e1);
    if count == 2 {
      StillSaves(m.d, c, f, e2);
    }
    PublishedLogs(f, count);
    n, steps := OneStep(m, steps, n, Publish(c, count, news));
  }

  lemma StillSaves(d: Durable, c: nat, f: Ring, e: Record)
    requires c < |d.rings| && Saves(d, c, e) && Idle(f)
    ensures Saves(WithRing(d, c, f), c, e)
  {
    var n := WithRing(d, c, f);
    forall w, o | 0 <= o < |n.rings| && Names(e, w)
      ensures !Logged(n.rings[o], w)
    {
      if o == c {
        IdleLogsNothing(f, w);
      }
    }
  }

  class LiteJournal {
    /** Whether the tag is taken off before undoing; the code does not. */
    const masked: bool
    var mem: Memory
    var rings: seq<Ring>

    /** nova_lite_journal_hard_init: an empty ring on a page of its own for each CPU. */
    constructor (mem: Memory, pages: seq<nat>, masked: bool)
      requires forall c :: 0 <= c < |pages| ==> pages[c] % PAGE == 0
      ensures this.masked == masked && Good(Machine(Now(), mem, map[])) && |rings| == |pages|
    {
      this.masked, this.mem := masked, mem;
      rings := seq(|pages|, c requires 0 <= c < |pages| => Ring(pages[c], pages[c], map[]));
      new;
      IdleIsGood(Now());
    }

    ghost function Now(): Durable
      reads this
    {
      Durable(mem, rings)
    }

    /** nova_create_lite_transaction: the records are in place before the tail moves. */
    method CreateLiteTransaction(c: nat, e1: Record, e2: Record, entries: nat, ghost m: Machine, ghost news: Memory)
      returns (newTail: nat, ghost steps: seq<Step>)
      requires c < |rings| && rings[c].head != 0 && Idle(rings[c])
      requires m.d == Now() && Good(m) && Saves(Now(), c, e1) && (entries == 2 ==> Saves(Now(), c, e2))
      requires forall w :: w in news <==> Names(e1, w) || (entries == 2 && Names(e2, w))
      modifies `rings
      ensures |rings| == |old(rings)| && newTail == rings[c].tail
      ensures CanRun(m, steps) && Run(m, steps) == m.(d := Now(), open := m.open[c := news])
      ensures forall i :: 0 <= i < |steps| ==> !steps[i].Commit?
    {
      steps := Creation(m, c, e1, e2, if entries == 2 then 2 else 1, news);
      var head := rings[c].head;
      rings := rings[c := rings[c].(slots := rings[c].slots[head := e1])];
      var last := head;
      if entries == 2 {
        last := NextSlot(head);
        rings := rings[c := rings[c].(slots := rings[c].slots[last := e2])];
      }
      newTail := NextSlot(last);
      rings := rings[c := rings[c].(tail := newTail)];
    }

    /** nova_commit_lite_transaction: once all stores have got to NVMM. */
    method CommitLiteTransaction(c: nat, tail: nat, ghost m: Machine)
      requires c < |rings| && rings[c].tail == tail
      requires m.d == Now() && Good(m) && Enabled(m, Commit(c))
      modifies `rings
      ensures After(m, Commit(c)).d == Now() && After(m, Commit(c)).spec == m.spec + m.open[c] && Idle(rings[c])
    {
      rings := rings[c := rings[c].(head := tail)];
    }

    /** nova_recover_lite_journal */
    method RecoverLiteJournal(c: nat, recover: nat)
      requires c < |rings| && Legible(rings[c]) && recover == |Pending(rings[c])| && recover in {1, 2}
      modifies `mem, `rings
      ensures mem == UndoRing(old(mem), old(rings)[c], recover, masked)
      ensures rings == old(rings)[c := old(rings)[c].(tail := old(rings)[c].head)]
    {
      var r := rings[c];
      assert Pending(r)[0] == r.head;
      mem := UndoEntry(mem, r.slots[r.head], masked);
      assert mem == UndoRing(old(mem), r, 1, masked) by {
        assert UndoRing(old(mem), r, 0, masked) == old(mem);
      }
      if recover == 2 {
        assert Pending(r)[1] == NextSlot(r.head);
        mem := UndoEntry(mem, r.slots[NextSlot(r.head)], masked);
      }
      rings := rings[c := r.(tail := r.head)];
    }

    /** nova_lite_journal_soft_init: fails on the first ring whose tail is neither at the head
        nor one or two records past it. */
    method SoftInit() returns (ok: bool)
      requires AllLegible(Now())
      modifies `mem, `rings
      ensures ok <==> forall c :: 0 <= c < |old(rings)| ==> Sane(old(rings)[c])
      ensures ok ==> Now() == Recovered(old(Now()), |old(rings)|, masked)
    {
      ghost var d := Now();
      for i := 0 to |rings|
        invariant |rings| == |d.rings|
        invariant forall c :: 0 <= c < i ==> Sane(d.rings[c])
        invariant Now() == Recovered(d, i, masked)
      {
        var r := rings[i];
        assert r == d.rings[i];
        var temp := NextSlot(r.head);
        if r.head == r.tail {
          assert rings == rings[i := r.(tail := r.head)];
        } else if r.tail == temp {
          RecoverLiteJournal(i, 1);
        } else if r.tail == NextSlot(temp) {
          RecoverLiteJournal(i, 2);
        } else {
          return false;
        }
      }
      return true;
    }
  }

  /** Extends a run by one step. */
  lemma OneStep(m: Machine, steps: seq<Step>, n: Machine, st: Step) returns (l: Machine, more: seq<Step>)
    requires CanRun(m, steps) && Run(m, steps) == n && Enabled(n, st)
    ensures more == steps + [st] && CanRun(m, more) && Run(m, more) == l == After(n, st)
    decreases |steps|
  {
    more, l := steps + [st], After(n, st);
    if steps != [] {
      var k := After(m, steps[0]);
      var x, y := OneStep(k, steps[1..], n, st);
      assert more[0] == steps[0] && more[1..] == steps[1..] + [st];
    } else {
      assert more[1..] == [];
    }
  }

  // ---------------------------------------------------------------------------------------
  // What a mount arrives at
  // ---------------------------------------------------------------------------------------

  /** Undoing a ring restores every word that it names and changes no other. */
  lemma {:induction false} RingRestores(mem: Memory, r: Ring, n: nat, spec: Memory)
    requires RingOk(r, spec) && n <= |Pending(r)| && mem.Keys == spec.Keys
    ensures UndoRing(mem, r, n, true).Keys == spec.Keys
    ensures forall w :: w in spec ==> UndoRing(mem, r, n, true)[w] in {mem[w], spec[w]}
    ensures forall k, w :: 0 <= k < n && Names(r.slots[Pending(r)[k]], w) ==> UndoRing(mem, r, n, true)[w] == spec[w]
  {
    if n > 0 {
      RingRestores(mem, r, n - 1, spec);
      UndoRestores(UndoRing(mem, r, n - 1, true), r.slots[Pending(r)[n - 1]], 4, spec);
    }
  }

  ghost predicate LoggedFrom(d: Durable, n: nat, w: nat) {
    exists c :: n <= c < |d.rings| && Logged(d.rings[c], w)
  }

  lemma {:induction false} FirstRings(d: Durable, n: nat, spec: Memory)
    requires Recoverable(d, spec) && n <= |d.rings|
    ensures Recovered(d, n, true).mem.Keys == spec.Keys
    ensures forall w :: w in spec && Recovered(d, n, true).mem[w] != spec[w] ==> LoggedFrom(d, n, w)
  {
    if n == 0 {
      forall w | w in spec && d.mem[w] != spec[w]
        ensures LoggedFrom(d, 0, w)
      {
        var c :| 0 <= c < |d.rings| && Logged(d.rings[c], w);
      }
    } else {
      var r, p := d.rings[n - 1], Recovered(d, n - 1, true).mem;
      FirstRings(d, n - 1, spec);
      RingRestores(p, r, |Pending(r)|, spec);
      forall w | w in spec && Recovered(d, n, true).mem[w] != spec[w]
        ensures LoggedFrom(d, n, w)
      {
        assert p[w] != spec[w] && !Logged(r, w);
        var c :| n - 1 <= c < |d.rings| && Logged(d.rings[c], w);
      }
    }
  }

  /** A mount turns every state that a run can leave into the committed memory, with all rings
      empty: no transaction is seen in part. */
  lemma MountArrives(d: Durable, spec: Memory)
    requires Recoverable(d, spec)
    ensures AllLegible(d)
    ensures Recovered(d, |d.rings|, true).mem == spec
    ensures forall c :: 0 <= c < |d.rings| ==> Idle(Recovered(d, |d.rings|, true).rings[c]) && Sane(d.rings[c])
  {
    FirstRings(d, |d.rings|, spec);
    var l := Recovered(d, |d.rings|, true);
    forall w | w in spec
      ensures l.mem[w] == spec[w]
    {
      assert !LoggedFrom(d, |d.rings|, w);
    }
  }

  /** Undoing one record, word by word, as steps of the machine. */
  lemma RecordSteps(m: Machine, steps: seq<Step>, n: Machine, c: nat, k: nat) returns (l: Machine, more: seq<Step>)
    requires CanRun(m, steps) && Run(m, steps) == n && Good(n) && n.open == map[]
    requires c < |n.d.rings| && k < |Pending(n.d.rings[c])|
    ensures Legible(n.d.rings[c]) && CanRun(m, more) && Run(m, more) == l && Good(l)
    ensures var r := n.d.rings[c];
            l == n.(d := n.d.(mem := UndoFirst(n.d.mem, r.slots[Pending(r)[k]], 4, true)))
  {
    var r := n.d.rings[c];
    assert RingOk(r, n.spec);
    var e := r.slots[Pending(r)[k]];
    l, more := n, steps;
    for i := 0 to 4
      invariant CanRun(m, more) && Run(m, more) == l && Good(l)
      invariant l == n.(d := n.d.(mem := UndoFirst(n.d.mem, e, i, true)))
    {
      if Restores(e, i) {
        StepKeeps(l, Undo(c, k, i));
        l, more := OneStep(m, more, l, Undo(c, k, i));
      }
    }
  }

  /** Recovering one ring as steps of the machine. */
  lemma RingSteps(m: Machine, steps: seq<Step>, n: Machine, c: nat) returns (l: Machine, more: seq<Step>)
    requires CanRun(m, steps) && Run(m, steps) == n && Good(n) && n.open == map[] && c < |n.d.rings|
    ensures Legible(n.d.rings[c]) && CanRun(m, more) && Run(m, more) == l && Good(l)
    ensures var r := n.d.rings[c];
            l == n.(d := Durable(UndoRing(n.d.mem, r, |Pending(r)|, true), n.d.rings[c := r.(tail := r.head)]))
  {
    var r := n.d.rings[c];
    assert RingOk(r, n.spec);
    l, more := n, steps;
    for k := 0 to |Pending(r)|
      invariant CanRun(m, more) && Run(m, more) == l && Good(l)
      invariant l == n.(d := n.d.(mem := UndoRing(n.d.mem, r, k, true)))
    {
      l, more := RecordSteps(m, more, l, c, k);
    }
    RingRestores(n.d.mem, r, |Pending(r)|, n.spec);
    StepKeeps(l, Reset(c));
    l, more := OneStep(m, more, l, Reset(c));
  }

  lemma OkIsLegible(d: Durable, spec: Memory)
    requires Recoverable(d, spec)
    ensures AllLegible(d)
  {
  }

  /** A mount is itself a run, so one that is cut short by a crash leaves a recoverable state. */
  lemma MountIsARun(m: Machine) returns (steps: seq<Step>)
    requires Good(m) && m.open == map[]
    ensures AllLegible(m.d) && CanRun(m, steps)
    ensures Run(m, steps) == m.(d := Recovered(m.d, |m.d.rings|, true))
  {
    OkIsLegible(m.d, m.spec);
    var n := m;
    steps := [];
    for c := 0 to |m.d.rings|
      invariant CanRun(m, steps) && Run(m, steps) == n && Good(n)
      invariant n == m.(d := Recovered(m.d, c, true))
    {
      assert n.d.rings[c] == m.d.rings[c];
      n, steps := RingSteps(m, steps, n, c);
    }
  }

  lemma {:induction false} TaggedRingMisses(mem: Memory, r: Ring, n: nat, w: nat)
    requires Legible(r) && n <= |Pending(r)| && w < TAG
    ensures w in UndoRing(mem, r, n, false) <==> w in mem
    ensures w in mem ==> UndoRing(mem, r, n, false)[w] == mem[w]
  {
    if n > 0 {
      TaggedRingMisses(mem, r, n - 1, w);
      TaggedUndoMisses(UndoRing(mem, r, n - 1, false), r.slots[Pending(r)[n - 1]], 4, w);
    }
  }

  lemma {:induction false} TaggedMountMisses(d: Durable, n: nat, w: nat)
    requires AllLegible(d) && n <= |d.rings| && w < TAG
    ensures w in Recovered(d, n, false).mem <==> w in d.mem
    ensures w in d.mem ==> Recovered(d, n, false).mem[w] == d.mem[w]
  {
    if n > 0 {
      TaggedMountMisses(d, n - 1, w);
      TaggedRingMisses(Recovered(d, n - 1, false).mem, d.rings[n - 1], |Pending(d.rings[n - 1])|, w);
    }
  }

  /** Every word that a pending record names has the value that the record would restore. */
  ghost predicate NothingToUndo(d: Durable)
    requires AllLegible(d)
  {
    forall c, k :: 0 <= c < |d.rings| && 0 <= k < |Pending(d.rings[c])| ==>
      AlreadyThere(d.mem, d.rings[c].slots[Pending(d.rings[c])[k]])
  }

  ghost predicate AlreadyThere(mem: Memory, e: Record) {
    && Formed(e)
    && forall i :: 0 <= i < 4 && Restores(e, i) ==> Where(e, i) in mem && mem[Where(e, i)] == Value(e, i)
  }

  lemma CommittedIffNothingToUndo(d: Durable, spec: Memory)
    requires Recoverable(d, spec)
    ensures AllLegible(d) && (d.mem == spec <==> NothingToUndo(d))
  {
    OkIsLegible(d, spec);
    forall c, k | 0 <= c < |d.rings| && 0 <= k < |Pending(d.rings[c])|
      ensures Faithful(d.rings[c].slots[Pending(d.rings[c])[k]], spec)
    {
      assert RingOk(d.rings[c], spec);
    }
    if NothingToUndo(d) {
      forall w | w in spec
        ensures d.mem[w] == spec[w]
      {
        if c :| 0 <= c < |d.rings| && Logged(d.rings[c], w) {
          var k :| 0 <= k < |Pending(d.rings[c])| && Names(d.rings[c].slots[Pending(d.rings[c])[k]], w);
          assert AlreadyThere(d.mem, d.rings[c].slots[Pending(d.rings[c])[k]]);
        }
      }
    }
  }

  /** As the code stands the mount still empties the rings, so it arrives at the committed memory
      if and only if there was nothing to undo. */
  lemma TaggedMountArrivesIff(d: Durable, spec: Memory)
    requires Recoverable(d, spec) && forall w :: w in spec ==> w < TAG
    ensures AllLegible(d)
    ensures (forall w :: w in spec ==>
              w in Recovered(d, |d.rings|, false).mem && Recovered(d, |d.rings|, false).mem[w] == spec[w])
            <==> NothingToUndo(d)
  {
    CommittedIffNothingToUndo(d, spec);
    forall w | w in spec
      ensures w in Recovered(d, |d.rings|, false).mem && Recovered(d, |d.rings|, false).mem[w] == d.mem[w]
    {
      TaggedMountMisses(d, |d.rings|, w);
    }
  }

  const SAVED := Record([8 * TAG + 64, 0, 0, 0], [5, 0, 0, 0])
  const TORN := Durable(map[64 := 7], [Ring(4096, 4160, map[4096 := SAVED])])

  /** One store of a transaction got to NVMM, then the machine crashed: the mount drops the record
      and keeps the store. */
  lemma TaggedMountFails()
    ensures Recoverable(TORN, map[64 := 5]) && AllLegible(TORN)
    ensures Recovered(TORN, 1, false).rings[0].tail == 4096
    ensures 64 in Recovered(TORN, 1, false).mem && Recovered(TORN, 1, false).mem[64] == 7
  {
    var spec: Memory := map[64 := 5];
    var r := TORN.rings[0];
    assert NextSlot(4096) == 4160;
    assert Pending(r) == [4096];
    assert Size(SAVED, 0) == 8 && Where(SAVED, 0) == 64;
    assert Pending(r)[0] == 4096;
    assert Names(r.slots[Pending(r)[0]], 64);
    assert Logged(r, 64);
    TaggedMountMisses(TORN, 1, 64);
  }
}
