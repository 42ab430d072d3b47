/** The padding that avb_sha256_final appends, and the padding of section 5.1.1 of FIPS 180-4. */
module Sha256Padding {
  import opened Bytes
  import opened ModularArithmetic
  import opened ByteOrder
  import opened Sequences

  const WRAP := 0x1_0000_0000

  function Zeros(n: nat): (z: seq<byte>)
    ensures |z| == n
  {
    seq(n, _ => 0)
  }

  // The fewest zero bytes that let 0x80, the zeros and eight length bytes end at a block boundary.
  function ZeroCount(n: nat): (z: nat)
    ensures (n + 1 + z + 8) % 64 == 0 && z < 64
  {
    (119 - n % 64) % 64
  }

  // The length in bits takes eight bytes.
  function FipsTail(n: nat): (t: seq<byte>)
    ensures (n + |t|) % 64 == 0
  {
    [0x80] + Zeros(ZeroCount(n)) + BeBytes(8 * n, 8)
  }

  // The length in bits is computed in 32 bits and only its last four bytes are stored.
  function CodeTail(n: nat): (t: seq<byte>)
    ensures (n + |t|) % 64 == 0
  {
    [0x80] + Zeros(ZeroCount(n) + 4) + BeBytes(8 * n % WRAP, 4)
  }

  function FipsPadded(m: seq<byte>): (p: seq<byte>)
    ensures |p| % 64 == 0
  {
    m + FipsTail(|m|)
  }

  function CodePadded(m: seq<byte>): (p: seq<byte>)
    ensures |p| % 64 == 0
  {
    m + CodeTail(|m|)
  }

  lemma {:induction false} ValBeBytes(v: nat, k: nat)
    requires v < Pow(256, k)
    ensures BeVal(BeBytes(v, k)) == v
  {
    if k != 0 {
      var s := BeBytes(v / 256, k - 1);
      assert BeBytes(v, k)[..k - 1] == s;
      ValBeBytes(v / 256, k - 1);
    }
  }

  lemma {:induction false} BeBytesZero(k: nat)
    ensures BeBytes(0, k) == Zeros(k)
  {
    if k != 0 {
      BeBytesZero(k - 1);
    }
  }

  lemma Pow256()
    ensures Pow(256, 4) == WRAP && Pow(256, 8) == WRAP * WRAP
  {
    assert Pow(256, 1) == 256 && Pow(256, 2) == 65536 && Pow(256, 3) == 16777216;
    PowAdd(256, 4, 4);
  }

  // Eight bytes are the four of the upper half and the four of the lower half.
  lemma BeBytesHalves(v: nat)
    requires v < WRAP * WRAP
    ensures BeBytes(v, 8) == BeBytes(v / WRAP, 4) + BeBytes(v % WRAP, 4)
  {
    var (high, low) := (BeBytes(v / WRAP, 4), BeBytes(v % WRAP, 4));
    Pow256();
    ValBeBytes(v / WRAP, 4);
    ValBeBytes(v % WRAP, 4);
    ValBeBytes(v, 8);
    BeValConcat(high, low);
    BeValInjective(BeBytes(v, 8), high + low);
  }

  lemma UpperHalfZero(v: nat)
    requires v < WRAP * WRAP
    ensures BeBytes(v / WRAP, 4) == Zeros(4) <==> v < WRAP
  {
    Pow256();
    ValBeBytes(v / WRAP, 4);
    BeBytesZero(4);
    ValBeBytes(0, 4);
  }

  // The two paddings are the same string exactly when the message has fewer than 2^29 bytes.
  lemma TailsAgree(n: nat)
    requires n < 0x2000_0000_0000_0000
    ensures CodeTail(n) == FipsTail(n) <==> n < 0x2000_0000
  {
    var v := 8 * n;
    var (high, last) := (BeBytes(v / WRAP, 4), BeBytes(v % WRAP, 4));
    var z := ZeroCount(n);
    var front := [0x80] + Zeros(z);
    BeBytesHalves(v);
    UpperHalfZero(v);
    assert Zeros(z + 4) == Zeros(z) + Zeros(4);
    assert CodeTail(n) == front + Zeros(4) + last;
    assert FipsTail(n) == front + high + last;
    SameMiddle(front, Zeros(4), high, last);
  }

  lemma BeBytes4(x: nat)
    ensures BeBytes(x, 4) == [LowByte(x / 0x100_0000), LowByte(x / 0x1_0000), LowByte(x / 0x100), LowByte(x)]
  {
    assert BeBytes(x / 0x100_0000, 1) == [LowByte(x / 0x100_0000)];
    assert x / 0x100_0000 == x / 0x1_0000 / 0x100;
    assert BeBytes(x / 0x1_0000, 2) == BeBytes(x / 0x100_0000, 1) + [LowByte(x / 0x1_0000)];
    assert x / 0x1_0000 == x / 0x100 / 0x100;
    assert BeBytes(x / 0x100, 3) == BeBytes(x / 0x1_0000, 2) + [LowByte(x / 0x100)];
  }

  // The number of zeros seen from the partial block.
  lemma ZeroCountFrom(n: nat, blocks: nat, len: nat)
    requires n == 64 * blocks + len && len < 64
    ensures ZeroCount(n) == if len <= 55 then 55 - len else 119 - len
  {
    DivModUnique(n, 64, blocks, len);
  }

  // The tail seen from the partial block: it ends at the end of block blockNb.
  lemma TailFrom(n: nat, blocks: nat, len: nat, blockNb: nat, lenB: nat)
    requires n == 64 * blocks + len && len < 64
    requires blockNb == (if 55 < len then 2 else 1) && lenB == 8 * n % WRAP
    ensures CodeTail(n) == [0x80] + Zeros(64 * blockNb - len - 5) + BeBytes(lenB, 4)
  {
    ZeroCountFrom(n, blocks, len);
  }

  lemma PaddedBlocks(done: seq<byte>, part: seq<byte>, blocks: nat, blockNb: nat, lenB: nat)
    requires |done| == 64 * blocks && |part| < 64
    requires blockNb == (if 55 < |part| then 2 else 1) && lenB == 8 * (|done| + |part|) % WRAP
    ensures CodePadded(done + part) == done + (part + ([0x80] + Zeros(64 * blockNb - |part| - 5) + BeBytes(lenB, 4)))
  {
    TailFrom(|done + part|, blocks, |part|, blockNb, lenB);
  }

  // What two updates leave as fed: the second one forgets a tail of the first when its length and
  // what was buffered reach 2^32.
  function FedTwice(s: seq<byte>, t: seq<byte>): seq<byte>
    requires |t| < WRAP
  {
    var buffered := |s| % 64;
    if buffered + |t| < WRAP then s + t else s[..|s| - (WRAP - |t|)]
  }

  lemma FedTwiceBuffered(s: seq<byte>, t: seq<byte>, blocks: nat, len: nat)
    requires |t| < WRAP && |s| == 64 * blocks + len && len < 64
    ensures FedTwice(s, t) == if len + |t| < WRAP then s + t else s[..|s| - (WRAP - |t|)]
  {
    DivModUnique(|s|, 64, blocks, len);
  }
}
