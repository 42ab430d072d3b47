/** The shape of the compression function of section 6.2.2 of FIPS 180-4, for any word type
    and any word operations. What is proved here about the two forms of SHA256_transform does
    not depend on a single bit, so the operations stay unknown until module Sha256Words. */
module Sha256Core {
  import opened Bytes

  // k: the round constants; pack and unpack: a big-endian word of four bytes; next: w[i] from
  // w[i - 2], w[i - 7], w[i - 15] and w[i - 16]; t1 and t2: the two temporary words of a round.
  datatype WordOps<!W> = WordOps(
    iv: Regs<W>,
    k: nat -> W,
    pack: (byte, byte, byte, byte) -> W,
    unpack: W -> Quad,
    next: (W, W, W, W) -> W,
    t1: (W, W, W, W, W, W) -> W,
    t2: (W, W, W) -> W,
    add: (W, W) -> W)

  const ROUNDS: nat := 64

  datatype Regs<W> = Regs(a: W, b: W, c: W, d: W, e: W, f: W, g: W, h: W)

  type Quad = q: seq<byte> | |q| == 4 witness [0, 0, 0, 0]

  type Block = b: seq<byte> | |b| == 64 witness seq(64, _ => 0)

  function BlockWords<W>(ops: WordOps<W>, block: Block): (w: seq<W>)
    ensures |w| == 16
  {
    seq(16, j requires 0 <= j < 16 => ops.pack(block[4 * j], block[4 * j + 1], block[4 * j + 2], block[4 * j + 3]))
  }

  function NextWord<W>(ops: WordOps<W>, w: seq<W>): W
    requires |w| >= 16
  {
    ops.next(w[|w| - 2], w[|w| - 7], w[|w| - 15], w[|w| - 16])
  }

  // The first n words of the message schedule.
  function Schedule<W>(ops: WordOps<W>, m: seq<W>, n: nat): (w: seq<W>)
    requires |m| == 16 <= n
    ensures |w| == n
  {
    if n == 16 then m else Schedule(ops, m, n - 1) + [NextWord(ops, Schedule(ops, m, n - 1))]
  }

  function Round<W>(ops: WordOps<W>, s: Regs<W>, k: W, w: W): Regs<W> {
    var t1 := ops.t1(s.e, s.f, s.g, s.h, k, w);
    Regs(ops.add(t1, ops.t2(s.a, s.b, s.c)), s.a, s.b, s.c, ops.add(s.d, t1), s.e, s.f, s.g)
  }

  function Rounds<W>(ops: WordOps<W>, s: Regs<W>, w: seq<W>, n: nat): Regs<W>
    requires n <= |w|
  {
    if n == 0 then s else Round(ops, Rounds(ops, s, w, n - 1), ops.k(n - 1), w[n - 1])
  }

  function RegsOf<W>(h: seq<W>): Regs<W>
    requires |h| == 8
  {
    Regs(h[0], h[1], h[2], h[3], h[4], h[5], h[6], h[7])
  }

  function AddRegs<W>(ops: WordOps<W>, h: Regs<W>, r: Regs<W>): Regs<W> {
    Regs(ops.add(h.a, r.a), ops.add(h.b, r.b), ops.add(h.c, r.c), ops.add(h.d, r.d),
         ops.add(h.e, r.e), ops.add(h.f, r.f), ops.add(h.g, r.g), ops.add(h.h, r.h))
  }

  // One application of the compression function.
  function Compress<W>(ops: WordOps<W>, h: Regs<W>, block: Block): Regs<W> {
    AddRegs(ops, h, Rounds(ops, h, Schedule(ops, BlockWords(ops, block), ROUNDS), ROUNDS))
  }

  function Step<W>(ops: WordOps<W>): (Regs<W>, Block) -> Regs<W> {
    (h, block: Block) => Compress(ops, h, block)
  }

  // A step is the compression function. The trigger keeps Compress out of sight wherever
  // only steps are talked about.
  ghost predicate Implements<W(!new)>(ops: WordOps<W>, step: (Regs<W>, Block) -> Regs<W>) {
    forall h: Regs<W>, block: Block {:trigger Compress(ops, h, block)} :: step(h, block) == Compress(ops, h, block)
  }

  lemma StepImplements<W(!new)>(ops: WordOps<W>)
    ensures Implements(ops, Step(ops))
  {
  }

  // A step folded over n blocks of s, the first of them at position o. The step stays unknown here.
  function Chain<S>(step: (S, Block) -> S, h: S, s: seq<byte>, o: nat, n: nat): S
    requires o + 64 * n <= |s|
  {
    if n == 0 then h
    else step(Chain(step, h, s, o, n - 1), s[o + 64 * n - 64..o + 64 * n])
  }

  lemma ChainNext<S>(step: (S, Block) -> S, h: S, s: seq<byte>, o: nat, n: nat)
    requires o + 64 * n + 64 <= |s|
    ensures Chain(step, h, s, o, n + 1) == step(Chain(step, h, s, o, n), s[o + 64 * n..o + 64 * n + 64])
  {
  }

  // Only the bytes of the blocks matter, not where they stand.
  lemma {:induction false} ChainMoved<S>(step: (S, Block) -> S, h: S, s: seq<byte>, o: nat, t: seq<byte>, p: nat, n: nat)
    requires o + 64 * n <= |s| && p + 64 * n <= |t| && s[o..o + 64 * n] == t[p..p + 64 * n]
    ensures Chain(step, h, s, o, n) == Chain(step, h, t, p, n)
  {
    if n != 0 {
      SamePart(s, o, t, p, 64 * n, 0, 64 * n - 64);
      SamePart(s, o, t, p, 64 * n, 64 * n - 64, 64 * n);
      ChainMoved(step, h, s, o, t, p, n - 1);
    }
  }

  lemma SamePart(s: seq<byte>, o: nat, t: seq<byte>, p: nat, n: nat, i: nat, j: nat)
    requires o + n <= |s| && p + n <= |t| && s[o..o + n] == t[p..p + n] && i <= j <= n
    ensures s[o + i..o + j] == t[p + i..p + j]
  {
    var (a, b) := (s[o + i..o + j], t[p + i..p + j]);
    forall k | 0 <= k < j - i ensures a[k] == b[k] {
      assert s[o..o + n][i + k] == t[p..p + n][i + k];
    }
    assert a == b;
  }

  // Every implementation of the compression function folds to the same value.
  lemma {:induction false} ChainUnique<W(!new)>(ops: WordOps<W>, step: (Regs<W>, Block) -> Regs<W>, h: Regs<W>, s: seq<byte>, n: nat)
    requires Implements(ops, step) && 64 * n <= |s|
    ensures Chain(step, h, s, 0, n) == Chain(Step(ops), h, s, 0, n)
  {
    if n != 0 {
      ChainUnique(ops, step, h, s, n - 1);
      var (r, block: Block) := (Chain(step, h, s, 0, n - 1), s[64 * n - 64..64 * n]);
      assert step(r, block) == Compress(ops, r, block) == Step(ops)(r, block);
    }
  }

  // n blocks, and then k more from where they end.
  lemma {:induction false} ChainSplit<S>(step: (S, Block) -> S, h: S, s: seq<byte>, o: nat, n: nat, k: nat)
    requires o + 64 * n + 64 * k <= |s|
    ensures Chain(step, h, s, o, n + k) == Chain(step, Chain(step, h, s, o, n), s, o + 64 * n, k)
  {
    if k != 0 {
      ChainSplit(step, h, s, o, n, k - 1);
      assert o + 64 * (n + k) == o + 64 * n + 64 * k;
    }
  }

  // The 32 bytes of a digest.
  function DigestBytes<W>(ops: WordOps<W>, r: Regs<W>): (d: seq<byte>)
    ensures |d| == 32
  {
    ops.unpack(r.a) + ops.unpack(r.b) + ops.unpack(r.c) + ops.unpack(r.d)
    + ops.unpack(r.e) + ops.unpack(r.f) + ops.unpack(r.g) + ops.unpack(r.h)
  }

  // The words of h unpacked one after the other.
  function Unpacked<W>(ops: WordOps<W>, h: seq<W>, n: nat): (d: seq<byte>)
    requires n <= |h|
    ensures |d| == 4 * n
  {
    if n == 0 then [] else Unpacked(ops, h, n - 1) + ops.unpack(h[n - 1])
  }

  lemma UnpackedAll<W>(ops: WordOps<W>, h: seq<W>)
    requires |h| == 8
    ensures Unpacked(ops, h, 8) == DigestBytes(ops, RegsOf(h))
  {
    var s := ops.unpack(h[0]);
    assert Unpacked(ops, h, 1) == s;
    assert Unpacked(ops, h, 2) == s + ops.unpack(h[1]);
    assert Unpacked(ops, h, 3) == Unpacked(ops, h, 2) + ops.unpack(h[2]);
    assert Unpacked(ops, h, 4) == Unpacked(ops, h, 3) + ops.unpack(h[3]);
    assert Unpacked(ops, h, 5) == Unpacked(ops, h, 4) + ops.unpack(h[4]);
    assert Unpacked(ops, h, 6) == Unpacked(ops, h, 5) + ops.unpack(h[5]);
    assert Unpacked(ops, h, 7) == Unpacked(ops, h, 6) + ops.unpack(h[6]);
  }
}
