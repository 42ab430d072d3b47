/** Eight steps of SHA-256 at a time, for any word operations: rows of eight words of the message
    schedule, and eight rounds on each. */
module Sha256Rows {
  import opened Bytes
  import opened Sha256
  import opened Sha256Core
  import opened Sha256Padding

  function EightRounds<W>(ops: WordOps<W>, s: Regs<W>, k: seq<W>, w: seq<W>): Regs<W>
    requires |k| == |w| == 8
  {
    var s4 := Round(ops, Round(ops, Round(ops, Round(ops, s, k[0], w[0]), k[1], w[1]), k[2], w[2]), k[3], w[3]);
    Round(ops, Round(ops, Round(ops, Round(ops, s4, k[4], w[4]), k[5], w[5]), k[6], w[6]), k[7], w[7])
  }

  ghost predicate KeysFrom<W>(ops: WordOps<W>, n: nat, k: seq<W>) {
    |k| == 8 && forall j :: 0 <= j < 8 ==> ops.k(n + j) == k[j]
  }

  lemma RoundsByEight<W>(ops: WordOps<W>, s: Regs<W>, w: seq<W>, n: nat, before: Regs<W>, k: seq<W>, row: seq<W>)
    requires n + 8 <= |w| && w[n..n + 8] == row && KeysFrom(ops, n, k)
    requires Rounds(ops, s, w, n) == before
    ensures Rounds(ops, s, w, n + 8) == EightRounds(ops, before, k, row)
  {
    forall j | 0 <= j < 8 ensures w[n + j] == row[j] {
      assert w[n + j] == w[n..n + 8][j];
    }
    var r1 := Round(ops, before, k[0], row[0]);
    var r2 := Round(ops, r1, k[1], row[1]);
    var r3 := Round(ops, r2, k[2], row[2]);
    var r4 := Round(ops, r3, k[3], row[3]);
    var r5 := Round(ops, r4, k[4], row[4]);
    var r6 := Round(ops, r5, k[5], row[5]);
    var r7 := Round(ops, r6, k[6], row[6]);
    OneRound(ops, s, w, n, before, k[0], row[0]);
    OneRound(ops, s, w, n + 1, r1, k[1], row[1]);
    OneRound(ops, s, w, n + 2, r2, k[2], row[2]);
    OneRound(ops, s, w, n + 3, r3, k[3], row[3]);
    OneRound(ops, s, w, n + 4, r4, k[4], row[4]);
    OneRound(ops, s, w, n + 5, r5, k[5], row[5]);
    OneRound(ops, s, w, n + 6, r6, k[6], row[6]);
    OneRound(ops, s, w, n + 7, r7, k[7], row[7]);
  }

  lemma OneRound<W>(ops: WordOps<W>, s: Regs<W>, w: seq<W>, n: nat, before: Regs<W>, k: W, x: W)
    requires n < |w| && w[n] == x && ops.k(n) == k && Rounds(ops, s, w, n) == before
    ensures Rounds(ops, s, w, n + 1) == Round(ops, before, k, x)
  {
  }

  // The eight words behind sixteen.
  function EightWords<W>(ops: WordOps<W>, p: seq<W>, q: seq<W>): (r: seq<W>)
    requires |p| == |q| == 8
    ensures |r| == 8
  {
    var a := ops.next(q[6], q[1], p[1], p[0]);
    var b := ops.next(q[7], q[2], p[2], p[1]);
    var c := ops.next(a, q[3], p[3], p[2]);
    var d := ops.next(b, q[4], p[4], p[3]);
    var e := ops.next(c, q[5], p[5], p[4]);
    var f := ops.next(d, q[6], p[6], p[5]);
    var g := ops.next(e, q[7], p[7], p[6]);
    var h := ops.next(f, a, q[0], p[7]);
    [a, b, c, d, e, f, g, h]
  }

  lemma OneWord<W>(ops: WordOps<W>, m: seq<W>, w: seq<W>, n: nat, x: W)
    requires |m| == 16 <= n && Schedule(ops, m, n) == w
    requires ops.next(w[n - 2], w[n - 7], w[n - 15], w[n - 16]) == x
    ensures Schedule(ops, m, n + 1) == w + [x]
  {
  }

  lemma ScheduleByEight<W>(ops: WordOps<W>, m: seq<W>, front: seq<W>, p: seq<W>, q: seq<W>, n: nat)
    requires |m| == 16 && |p| == |q| == 8 && n == |front| + 16 && Schedule(ops, m, n) == front + p + q
    ensures Schedule(ops, m, n + 8) == front + p + q + EightWords(ops, p, q)
  {
    var r := EightWords(ops, p, q);
    var w := front + p + q;
    OneWord(ops, m, w, n, r[0]);
    OneWord(ops, m, w + r[..1], n + 1, r[1]);
    OneWord(ops, m, w + r[..2], n + 2, r[2]);
    OneWord(ops, m, w + r[..3], n + 3, r[3]);
    OneWord(ops, m, w + r[..4], n + 4, r[4]);
    OneWord(ops, m, w + r[..5], n + 5, r[5]);
    OneWord(ops, m, w + r[..6], n + 6, r[6]);
    OneWord(ops, m, w + r[..7], n + 7, r[7]);
  }

  // ----- eight rows of eight

  function Joined<W>(rows: seq<seq<W>>, k: nat): (r: seq<W>)
    requires k <= |rows| && forall i :: 0 <= i < |rows| ==> |rows[i]| == 8
    ensures |r| == 8 * k
  {
    if k == 0 then [] else Joined(rows, k - 1) + rows[k - 1]
  }

  ghost predicate WordRows<W>(ops: WordOps<W>, rows: seq<seq<W>>) {
    && |rows| == 8 && (forall i :: 0 <= i < 8 ==> |rows[i]| == 8)
    && forall i :: 2 <= i < 8 ==> EightWords(ops, rows[i - 2], rows[i - 1]) == rows[i]
  }

  lemma {:induction false} ScheduleRows<W>(ops: WordOps<W>, m: seq<W>, rows: seq<seq<W>>, k: nat)
    requires WordRows(ops, rows) && m == rows[0] + rows[1] && 2 <= k <= 8
    ensures Schedule(ops, m, 8 * k) == Joined(rows, k)
  {
    if k == 2 {
      assert Joined(rows, 1) == rows[0];
      assert Joined(rows, 2) == m;
    } else {
      ScheduleRows(ops, m, rows, k - 1);
      assert Joined(rows, k - 1) == Joined(rows, k - 3) + rows[k - 3] + rows[k - 2];
      ScheduleByEight(ops, m, Joined(rows, k - 3), rows[k - 3], rows[k - 2], 8 * (k - 1));
    }
  }

  lemma {:induction false} RowOfJoined<W>(rows: seq<seq<W>>, k: nat, n: nat)
    requires k < n <= |rows| && forall i :: 0 <= i < |rows| ==> |rows[i]| == 8
    ensures Joined(rows, n)[8 * k..8 * k + 8] == rows[k]
  {
    if k < n - 1 {
      RowOfJoined(rows, k, n - 1);
      assert Joined(rows, n)[8 * k..8 * k + 8] == Joined(rows, n - 1)[8 * k..8 * k + 8];
    }
  }

  lemma WordsFit<W>(ops: WordOps<W>, w0: seq<W>, w1: seq<W>, w2: seq<W>, w3: seq<W>, w4: seq<W>, w5: seq<W>, w6: seq<W>, w7: seq<W>)
    requires |w0| == 8 && |w1| == 8 && |w2| == 8 && |w3| == 8 && |w4| == 8 && |w5| == 8 && |w6| == 8 && |w7| == 8
    requires EightWords(ops, w0, w1) == w2 && EightWords(ops, w1, w2) == w3 && EightWords(ops, w2, w3) == w4
    requires EightWords(ops, w3, w4) == w5 && EightWords(ops, w4, w5) == w6 && EightWords(ops, w5, w6) == w7
    ensures WordRows(ops, [w0, w1, w2, w3, w4, w5, w6, w7])
  {
  }

  // One application of the compression function, once its schedule and its last registers are known.
  lemma CompressRows<W>(ops: WordOps<W>, h: Regs<W>, block: Block, rows: seq<seq<W>>, last: Regs<W>)
    requires WordRows(ops, rows) && BlockWords(ops, block) == rows[0] + rows[1]
    requires Rounds(ops, h, Joined(rows, 8), 64) == last
    ensures Compress(ops, h, block) == AddRegs(ops, h, last)
  {
    ScheduleRows(ops, BlockWords(ops, block), rows, 8);
  }

  lemma OneBlockDigest<W>(ops: WordOps<W>, m: seq<byte>, block: Block, r: Regs<W>)
    requires FipsPadded(m) == block && Compress(ops, ops.iv, block) == r
    ensures Hash(ops, m) == DigestBytes(ops, r)
  {
    assert block[0..64] == block;
    assert Chain(Step(ops), ops.iv, block, 0, 0) == ops.iv;
  }
}
