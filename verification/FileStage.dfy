/**
 Copy-on-write in stages: filling new blocks and what is in place before the commit.
 */
module FileStage {
  import opened FileLog
  import opened FileData

  /** Block `b` holds page `p` of the file `c`, padded with zeros. */
  ghost predicate PageHolds(mem: seq<byte>, b: nat, p: nat, c: seq<byte>) {
    InDevice(mem, b) && forall i: nat :: i < PAGE ==> Cell(mem, b, i) == At(c, p * PAGE + i)
  }

  /** Pages from..to-1 of a write are in place: each record's blocks come from `taken`, hold the
      bytes the file should hold there, and are not shared between records. */
  ghost predicate Staged(mem: seq<byte>, free: set<nat>, es: seq<Rec>, taken: set<nat>, target: seq<byte>) {
    && (forall b :: b in taken ==> InDevice(mem, b) && b !in free)
    && (forall i, p :: 0 <= i < |es| && Covers(es[i], p) ==> BlockOf(es[i], p) in taken)
    && (forall i, p :: 0 <= i < |es| && Covers(es[i], p) ==> PageHolds(mem, BlockOf(es[i], p), p, target))
    && (forall i, j, p, q :: 0 <= i < j < |es| && Covers(es[i], p) && Covers(es[j], q) ==>
      BlockOf(es[i], p) != BlockOf(es[j], q))
  }

  lemma PageUndisturbed(mem: seq<byte>, mem': seq<byte>, run: set<nat>, b: nat, p: nat, target: seq<byte>)
    requires SameOutside(mem, mem', run) && PageHolds(mem, b, p, target) && b !in run
    ensures PageHolds(mem', b, p, target)
  {
  }

  lemma StageMore(mem: seq<byte>, mem': seq<byte>, free: set<nat>, free': set<nat>, es: seq<Rec>, r: Rec,
                  taken: set<nat>, run: set<nat>, target: seq<byte>)
    requires Staged(mem, free, es, taken, target)
    requires SameOutside(mem, mem', run) && free' <= free && run !! free' && run !! taken
    requires forall b :: b in run ==> InDevice(mem, b)
    requires forall p :: Covers(r, p) ==> BlockOf(r, p) in run && PageHolds(mem', BlockOf(r, p), p, target)
    ensures Staged(mem', free', es + [r], taken + run, target)
  {
    forall i, p | 0 <= i < |es| && Covers(es[i], p)
      ensures PageHolds(mem', BlockOf(es[i], p), p, target)
    {
      PageUndisturbed(mem, mem', run, BlockOf(es[i], p), p, target);
    }
  }

  /** Laying fully staged pages over the index turns the file `c` into `target`. */
  lemma OverlayHolds(mem: seq<byte>, tree: map<nat, Rec>, ov: map<nat, Rec>, c: seq<byte>, target: seq<byte>)
    requires Reads(mem, tree, c) && Mapped(mem, ov)
    requires forall p :: p in ov ==> PageHolds(mem, BlockOf(ov[p], p), p, target)
    requires forall off: nat :: off / PAGE !in ov ==> At(c, off) == At(target, off)
    ensures Reads(mem, tree + ov, target)
  {
    forall off: nat
      ensures ByteAt(mem, tree + ov, off) == At(target, off)
    {
      var p: nat := off / PAGE;
      if p in ov {
        assert PageHolds(mem, BlockOf(ov[p], p), p, target);
        assert off == p * PAGE + off % PAGE;
      }
    }
  }

  lemma MovedReads(mem: seq<byte>, tree: map<nat, Rec>, to: map<nat, nat>, c: seq<byte>)
    requires Reads(mem, tree, c)
    ensures Reads(mem, MoveTree(tree, to), c)
  {
    forall off: nat
      ensures Mapped(mem, MoveTree(tree, to)) && ByteAt(mem, MoveTree(tree, to), off) == ByteAt(mem, tree, off)
    {
    }
  }
}
