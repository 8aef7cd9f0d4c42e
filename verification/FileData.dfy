/**
 The bytes of a file: how the page index and the NVMM blocks make up its content, and what a
 write, a truncate and a crash are expected to do to that content.
 */
module FileData {
  import opened FileLog

  type byte = x: int | 0 <= x < 256

  /** What a proof may look inside of. */
  datatype Wrapped = TheTaking | TheFile | TheStaging | TheLoop | TheScan | TheImage | TheTrace | TheRead | TheSpread
                   | TheBlocks | TheLogs

  /** Names a place in a proof that looks inside a wrapped predicate.  Elsewhere the predicate is
      kept as it is, which keeps the proofs of the operations small. */
  ghost predicate Inside(what: Wrapped, k: int) {
    true
  }

  /** `mem` with `src` copied to address `at`. */
  function Blit(mem: seq<byte>, at: nat, src: seq<byte>): (m: seq<byte>)
    requires at + |src| <= |mem|
    ensures |m| == |mem|
    ensures forall i :: 0 <= i < |mem| ==> m[i] == if at <= i < at + |src| then src[i - at] else mem[i]
  {
    mem[..at] + src + mem[at + |src|..]
  }

  function Max(a: nat, b: nat): nat {
    if a > b then a else b
  }

  function Zeros(n: nat): (z: seq<byte>)
    ensures |z| == n && forall i :: 0 <= i < n ==> z[i] == 0
  {
    seq(n, _ => 0)
  }

  predicate InDevice(mem: seq<byte>, b: nat) {
    0 < b && (b + 1) * PAGE <= |mem|
  }

  ghost function Cell(mem: seq<byte>, b: nat, i: nat): byte
    requires InDevice(mem, b) && i < PAGE
  {
    mem[b * PAGE + i]
  }

  /** `mem` with `src` copied into block `b` from byte `from` on. */
  function Patch(mem: seq<byte>, b: nat, from: nat, src: seq<byte>): (m: seq<byte>)
    requires InDevice(mem, b) && from + |src| <= PAGE
    ensures |m| == |mem|
    ensures forall c, i :: InDevice(mem, c) && 0 <= i < PAGE ==>
              Cell(m, c, i) == if c == b && from <= i < from + |src| then src[i - from] else Cell(mem, c, i)
  {
    Blit(mem, b * PAGE + from, src)
  }

  /** A copy that runs over several blocks, block by block. */
  lemma BlitCells(mem: seq<byte>, b: nat, from: nat, src: seq<byte>)
    requires b * PAGE + from + |src| <= |mem|
    ensures forall c: nat, i: nat :: InDevice(mem, c) && i < PAGE ==>
              Cell(Blit(mem, b * PAGE + from, src), c, i) == CopiedCell(mem, b, from, src, c, i)
  {
  }

  ghost function CopiedCell(mem: seq<byte>, b: nat, from: nat, src: seq<byte>, c: nat, i: nat): byte
    requires InDevice(mem, c) && i < PAGE
  {
    var k: int := (c - b) * PAGE + i - from;
    if 0 <= k < |src| then src[k] else Cell(mem, c, i)
  }

  ghost predicate SameOutside(mem: seq<byte>, mem': seq<byte>, run: set<nat>) {
    |mem'| == |mem| && forall c, i :: InDevice(mem, c) && c !in run && 0 <= i < PAGE ==>
      Cell(mem', c, i) == Cell(mem, c, i)
  }

  /** Every index entry covers its page and names a block of the device. */
  ghost predicate Mapped(mem: seq<byte>, tree: map<nat, Rec>) {
    forall p :: p in tree ==> Covers(tree[p], p) && InDevice(mem, BlockOf(tree[p], p))
  }

  /** The byte at file offset `off`; a page without an index entry is a hole of zeros. */
  ghost function ByteAt(mem: seq<byte>, tree: map<nat, Rec>, off: nat): byte
    requires Mapped(mem, tree)
  {
    var p := off / PAGE;
    if p in tree then
      Cell(mem, BlockOf(tree[p], p), off % PAGE)
    else 0
  }

  /** Byte `off` of a file that reads `c`, with zeros beyond its end. */
  function At(c: seq<byte>, off: nat): byte {
    if off < |c| then c[off] else 0
  }

  /** The blocks behind the index hold the file `c`, and zeros beyond its end. */
  ghost predicate Reads(mem: seq<byte>, tree: map<nat, Rec>, c: seq<byte>) {
    Mapped(mem, tree) && forall off: nat :: ByteAt(mem, tree, off) == At(c, off)
  }

  /** What POSIX expects of a write: the gap before it reads as zeros. */
  function Overwritten(c: seq<byte>, pos: nat, buf: seq<byte>): (d: seq<byte>)
    ensures buf == [] ==> d == c
    ensures buf != [] ==> |d| == Max(pos + |buf|, |c|)
    ensures buf != [] ==>
              forall off: nat :: At(d, off) == if pos <= off < pos + |buf| then buf[off - pos] else At(c, off)
  {
    if buf == [] then c
    else seq(Max(pos + |buf|, |c|), i requires 0 <= i => if pos <= i < pos + |buf| then buf[i - pos] else At(c, i))
  }

  /** What POSIX expects of a truncate: growth reads as zeros. */
  function Resized(c: seq<byte>, n: nat): (d: seq<byte>)
    ensures |d| == n && forall off: nat :: At(d, off) == if off < n then At(c, off) else 0
  {
    seq(n, i requires 0 <= i => At(c, i))
  }

  lemma Unaffected(mem: seq<byte>, mem': seq<byte>, tree: map<nat, Rec>, run: set<nat>)
    requires Mapped(mem, tree) && SameOutside(mem, mem', run)
    requires forall p :: p in tree ==> BlockOf(tree[p], p) !in run
    ensures Mapped(mem', tree)
    ensures forall off: nat :: ByteAt(mem', tree, off) == ByteAt(mem, tree, off)
  {
  }
}
