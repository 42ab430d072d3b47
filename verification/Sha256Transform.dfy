/** The two forms of SHA256_transform in Application/UefiAvb/libavb/avb_sha256.c: the loop that
    shifts the registers and the unrolled macros that rotate their roles. */
module Sha256Transform {
  import opened Bytes
  import opened Sha256Core

  // ----- what both forms share: the message schedule

  method FillSchedule<W>(ops: WordOps<W>, message: array<byte>, o: nat, w: array<W>)
    requires o + 64 <= message.Length && w.Length == 64 && w as object != message
    modifies w
    ensures w[..] == Schedule(ops, BlockWords(ops, message[o..o + 64]), ROUNDS)
  {
    ghost var block: Block := message[o..o + 64];
    ghost var m := BlockWords(ops, block);
    var j := 0;
    while j < 16
      invariant 0 <= j <= 16
      invariant message[o..o + 64] == block
      invariant forall i :: 0 <= i < j ==> w[i] == m[i]
    {
      PackAt(ops, message[..], o, j);
      w[j] := ops.pack(message[o + 4 * j], message[o + 4 * j + 1], message[o + 4 * j + 2], message[o + 4 * j + 3]);
      j := j + 1;
    }
    assert w[..16] == m;
    while j < 64
      invariant 16 <= j <= 64
      invariant w[..j] == Schedule(ops, m, j)
    {
      ghost var p := w[..j];
      w[j] := ops.next(w[j - 2], w[j - 7], w[j - 15], w[j - 16]);
      assert w[..j + 1] == p + [NextWord(ops, p)];
      j := j + 1;
    }
    assert w[..j] == w[..];
  }

  lemma PackAt<W>(ops: WordOps<W>, s: seq<byte>, o: nat, j: nat)
    requires o + 64 <= |s| && j < 16
    ensures BlockWords(ops, s[o..o + 64])[j]
         == ops.pack(s[o + 4 * j], s[o + 4 * j + 1], s[o + 4 * j + 2], s[o + 4 * j + 3])
  {
    var block := s[o..o + 64];
    assert block[4 * j] == s[o + 4 * j] && block[4 * j + 1] == s[o + 4 * j + 1];
    assert block[4 * j + 2] == s[o + 4 * j + 2] && block[4 * j + 3] == s[o + 4 * j + 3];
  }

  // ----- the loop form

  method RoundsLoop<W>(ops: WordOps<W>, w: array<W>, wv: array<W>)
    requires w.Length == 64 && wv.Length == 8 && w != wv
    modifies wv
    ensures RegsOf(wv[..]) == Rounds(ops, RegsOf(old(wv[..])), w[..], ROUNDS)
  {
    ghost var s := RegsOf(wv[..]);
    var j := 0;
    while j < 64
      invariant 0 <= j <= 64
      invariant RegsOf(wv[..]) == Rounds(ops, s, w[..], j)
    {
      ghost var before := RegsOf(wv[..]);
      var t1 := ops.t1(wv[4], wv[5], wv[6], wv[7], ops.k(j), w[j]);
      var t2 := ops.t2(wv[0], wv[1], wv[2]);
      wv[7] := wv[6];
      wv[6] := wv[5];
      wv[5] := wv[4];
      wv[4] := ops.add(wv[3], t1);
      wv[3] := wv[2];
      wv[2] := wv[1];
      wv[1] := wv[0];
      wv[0] := ops.add(t1, t2);
      assert RegsOf(wv[..]) == Round(ops, before, ops.k(j), w[j]);
      j := j + 1;
    }
  }

  // ----- the unrolled form

  // The registers, with their roles played by the given positions of wv.
  function Roles<W>(wv: seq<W>, a: nat, b: nat, c: nat, d: nat, e: nat, f: nat, g: nat, h: nat): Regs<W>
    requires |wv| == 8 && a < 8 && b < 8 && c < 8 && d < 8 && e < 8 && f < 8 && g < 8 && h < 8
  {
    Regs(wv[a], wv[b], wv[c], wv[d], wv[e], wv[f], wv[g], wv[h])
  }

  // The macro SHA256_EXP: two registers change and every role moves on by one position.
  method Exp<W>(ops: WordOps<W>, wv: array<W>, w: array<W>, a: nat, b: nat, c: nat, d: nat, e: nat, f: nat, g: nat, h: nat, j: nat,
                ghost s: Regs<W>, ghost ws: seq<W>)
    requires wv.Length == 8 && w[..] == ws && wv != w && j < |ws|
    requires a < 8 && b < 8 && c < 8 && d < 8 && e < 8 && f < 8 && g < 8 && h < 8
    requires d != a && d != b && d != c && d != e && d != f && d != g && d != h
    requires h != a && h != b && h != c && h != e && h != f && h != g
    requires Roles(wv[..], a, b, c, d, e, f, g, h) == Rounds(ops, s, ws, j)
    modifies wv
    ensures w[..] == ws
    ensures Roles(wv[..], h, a, b, c, d, e, f, g) == Rounds(ops, s, ws, j + 1)
  {
    ghost var before := Roles(wv[..], a, b, c, d, e, f, g, h);
    var t1 := ops.t1(wv[e], wv[f], wv[g], wv[h], ops.k(j), w[j]);
    var t2 := ops.t2(wv[a], wv[b], wv[c]);
    wv[d] := ops.add(wv[d], t1);
    wv[h] := ops.add(t1, t2);
    assert Roles(wv[..], h, a, b, c, d, e, f, g) == Round(ops, before, ops.k(j), ws[j]);
  }

  // Eight macro lines; the sixty-four of the source are these, with j counting on.
  method ExpEight<W>(ops: WordOps<W>, wv: array<W>, w: array<W>, j: nat, ghost s: Regs<W>, ghost ws: seq<W>)
    requires wv.Length == 8 && w[..] == ws && wv != w && j + 8 <= |ws|
    requires RegsOf(wv[..]) == Rounds(ops, s, ws, j)
    modifies wv
    ensures w[..] == ws
    ensures RegsOf(wv[..]) == Rounds(ops, s, ws, j + 8)
  {
    Exp(ops, wv, w, 0, 1, 2, 3, 4, 5, 6, 7, j, s, ws);
    Exp(ops, wv, w, 7, 0, 1, 2, 3, 4, 5, 6, j + 1, s, ws);
    Exp(ops, wv, w, 6, 7, 0, 1, 2, 3, 4, 5, j + 2, s, ws);
    Exp(ops, wv, w, 5, 6, 7, 0, 1, 2, 3, 4, j + 3, s, ws);
    Exp(ops, wv, w, 4, 5, 6, 7, 0, 1, 2, 3, j + 4, s, ws);
    Exp(ops, wv, w, 3, 4, 5, 6, 7, 0, 1, 2, j + 5, s, ws);
    Exp(ops, wv, w, 2, 3, 4, 5, 6, 7, 0, 1, j + 6, s, ws);
    Exp(ops, wv, w, 1, 2, 3, 4, 5, 6, 7, 0, j + 7, s, ws);
  }

  method RoundsUnrolled<W>(ops: WordOps<W>, w: array<W>, wv: array<W>)
    requires w.Length == 64 && wv.Length == 8 && w != wv
    modifies wv
    ensures RegsOf(wv[..]) == Rounds(ops, RegsOf(old(wv[..])), w[..], ROUNDS)
  {
    ghost var (s, ws) := (RegsOf(wv[..]), w[..]);
    ExpEight(ops, wv, w, 0, s, ws);
    ExpEight(ops, wv, w, 8, s, ws);
    ExpEight(ops, wv, w, 16, s, ws);
    ExpEight(ops, wv, w, 24, s, ws);
    ExpEight(ops, wv, w, 32, s, ws);
    ExpEight(ops, wv, w, 40, s, ws);
    ExpEight(ops, wv, w, 48, s, ws);
    ExpEight(ops, wv, w, 56, s, ws);
  }

  method AddInPlace<W>(ops: WordOps<W>, h: array<W>, wv: array<W>)
    requires h.Length == wv.Length == 8 && h != wv
    modifies h
    ensures RegsOf(h[..]) == AddRegs(ops, RegsOf(old(h[..])), RegsOf(wv[..]))
  {
    h[0] := ops.add(h[0], wv[0]);
    h[1] := ops.add(h[1], wv[1]);
    h[2] := ops.add(h[2], wv[2]);
    h[3] := ops.add(h[3], wv[3]);
    h[4] := ops.add(h[4], wv[4]);
    h[5] := ops.add(h[5], wv[5]);
    h[6] := ops.add(h[6], wv[6]);
    h[7] := ops.add(h[7], wv[7]);
  }

  // One block with either form of the rounds; the chaining value does not depend on it.
  method TransformBlock<W(0)>(ops: WordOps<W>, h: array<W>, message: array<byte>, o: nat, unroll: bool)
    requires h.Length == 8 && o + 64 <= message.Length && h as object != message
    modifies h
    ensures RegsOf(h[..]) == Compress(ops, RegsOf(old(h[..])), message[o..o + 64])
  {
    ghost var (h0, block: Block) := (RegsOf(h[..]), message[o..o + 64]);
    var w := new W[64];
    var wv := new W[8];
    FillSchedule(ops, message, o, w);
    ghost var schedule := w[..];
    CopyRegs(h, wv);
    if unroll {
      RoundsUnrolled(ops, w, wv);
    } else {
      RoundsLoop(ops, w, wv);
    }
    assert RegsOf(wv[..]) == Rounds(ops, h0, schedule, ROUNDS);
    AddInPlace(ops, h, wv);
    assert RegsOf(h[..]) == Compress(ops, h0, block);
  }

  method CopyRegs<W>(h: array<W>, wv: array<W>)
    requires h.Length == wv.Length == 8 && h != wv
    modifies wv
    ensures wv[..] == h[..]
  {
    var j := 0;
    while j < 8
      invariant 0 <= j <= 8
      invariant wv[..j] == h[..j]
    {
      wv[j] := h[j];
      j := j + 1;
    }
    assert wv[..j] == wv[..] && h[..j] == h[..];
  }
}
