/** Big-endian numbers in byte sequences, and the constant-time comparison of
    Application/UefiAvb/libavb/avb_util.c. */
module ByteOrder {
  import opened Bytes
  import opened ModularArithmetic

  // The number that a big-endian byte string denotes.
  function BeVal(s: seq<byte>): nat {
    if s == [] then 0 else BeVal(s[..|s| - 1]) * 256 + s[|s| - 1] as int
  }

  // Every number below 256 is the value of a byte; Dafny's conversions then invert each other.
  lemma {:induction false} ByteOfNumber(x: nat) returns (b: byte)
    requires x < 256
    ensures b as int == x
  {
    if x == 0 {
      b := 0;
    } else {
      b := ByteOfNumber(x - 1);
      ByteSuccessor(b);
      b := b + 1;
    }
  }

  lemma ByteSuccessor(b: byte)
    requires b as int < 255
    ensures (b + 1) as int == b as int + 1
  {
  }

  lemma ByteOfInt(b: byte)
    ensures b as int as byte == b
  {
  }

  lemma ByteRoundTrip(x: nat)
    requires x < 256
    ensures (x as byte) as int == x
  {
    var b := ByteOfNumber(x);
    ByteOfInt(b);
  }

  // C's conversion to uint8_t.
  function LowByte(x: nat): (b: byte)
    ensures b as int == x % 256
  {
    var y := x % 256;
    ByteRoundTrip(y);
    y as byte
  }

  // The k-byte big-endian string of v (of v modulo 256^k when v is larger).
  function BeBytes(v: nat, k: nat): (s: seq<byte>)
    ensures |s| == k
  {
    if k == 0 then [] else BeBytes(v / 256, k - 1) + [LowByte(v)]
  }

  lemma {:induction false} BeBytesVal(s: seq<byte>)
    ensures BeBytes(BeVal(s), |s|) == s
  {
    if s != [] {
      var (front, b) := (s[..|s| - 1], s[|s| - 1]);
      DivModUnique(BeVal(s), 256, BeVal(front), b as int);
      BeBytesVal(front);
      assert s == front + [b];
    }
  }

  lemma BeValInjective(s: seq<byte>, t: seq<byte>)
    requires |s| == |t|
    ensures BeVal(s) == BeVal(t) <==> s == t
  {
    BeBytesVal(s);
    BeBytesVal(t);
  }

  lemma {:induction false} BeValBound(s: seq<byte>)
    ensures BeVal(s) < Pow(256, |s|)
  {
    if s != [] {
      BeValBound(s[..|s| - 1]);
    }
  }

  lemma {:induction false} BeValConcat(s: seq<byte>, t: seq<byte>)
    ensures BeVal(s + t) == BeVal(s) * Pow(256, |t|) + BeVal(t)
  {
    if t == [] {
      assert s + t == s;
    } else {
      var (front, b) := (t[..|t| - 1], t[|t| - 1]);
      assert (s + t)[..|s + t| - 1] == s + front;
      BeValConcat(s, front);
      var p := Pow(256, |front|);
      var v := BeVal(s);
      assert v * (256 * p) == (v * p) * 256 by { assert 256 * p == p * 256; MulAssociative(v, p, 256); }
    }
  }

  lemma BeVal4(s: seq<byte>)
    requires |s| == 4
    ensures BeVal(s) == ((s[0] as int * 256 + s[1] as int) * 256 + s[2] as int) * 256 + s[3] as int
  {
    var (s3, s2, s1) := (s[..3], s[..2], s[..1]);
    assert s3[..2] == s2 && s2[..1] == s1 && s1[..0] == [];
    assert BeVal(s1) == s[0] as int;
    assert BeVal(s2) == BeVal(s1) * 256 + s[1] as int;
    assert BeVal(s3) == BeVal(s2) * 256 + s[2] as int;
  }

  // avb_htobe32 and avb_be32toh on the bytes of a word.
  function BeWord(w: bv32): (r: seq<byte>)
    ensures |r| == 4
  {
    [(w >> 24) as byte, ((w >> 16) & 0xFF) as byte, ((w >> 8) & 0xFF) as byte, (w & 0xFF) as byte]
  }

  function FromBeWord(r: seq<byte>): bv32
    requires |r| == 4
  {
    (r[0] as bv32 << 24) | (r[1] as bv32 << 16) | (r[2] as bv32 << 8) | r[3] as bv32
  }

  lemma BeWordInverse(w: bv32)
    ensures FromBeWord(BeWord(w)) == w
  {
  }

  lemma FromBeWordDiffers(a: byte, b: byte, c: byte, d: byte, a': byte, b': byte, c': byte, d': byte)
    requires FromBeWord([a, b, c, d]) == FromBeWord([a', b', c', d'])
    ensures a == a' && b == b' && c == c' && d == d'
  {
  }

  // 0 when the n bytes agree, 1 otherwise; every byte is visited whatever the outcome.
  method SafeMemcmp(s1: array<byte>, o1: nat, s2: array<byte>, o2: nat, n: nat) returns (r: int)
    requires o1 + n <= s1.Length && o2 + n <= s2.Length
    ensures r == if s1[o1..o1 + n] == s2[o2..o2 + n] then 0 else 1
  {
    var result: byte := 0;
    if n == 0 {
      return 0;
    }
    var i := 0;
    while i < n
      invariant 0 <= i <= n
      invariant (result == 0) <==> s1[o1..o1 + i] == s2[o2..o2 + i]
    {
      ghost var was := result;
      result := result | (s1[o1 + i] ^ s2[o2 + i]);
      OrXor(was, s1[o1 + i], s2[o2 + i]);
      assert s1[o1..o1 + i + 1] == s1[o1..o1 + i] + [s1[o1 + i]];
      assert s2[o2..o2 + i + 1] == s2[o2..o2 + i] + [s2[o2 + i]];
      i := i + 1;
    }
    return if result != 0 then 1 else 0;
  }

  lemma OrXor(r: byte, x: byte, y: byte)
    ensures r | (x ^ y) == 0 <==> r == 0 && x == y
  {
  }
}
