/** What the capsule tools use of Python: struct.pack and struct.unpack with little-endian
    formats, slices that clamp their bounds, and exceptions. */
module PyStruct {
  import opened Bytes
  import opened ByteOrder
  import opened ModularArithmetic

  datatype Exception = StructError | ValueError

  datatype Result<+T> = Ok(value: T) | Raised(error: Exception)

  const U8: nat := 0x100
  const U16: nat := 0x1_0000
  const U32: nat := 0x1_0000_0000
  const U64: nat := 0x1_0000_0000_0000_0000

  function LeBytes(v: nat, k: nat): (s: seq<byte>)
    ensures |s| == k
  {
    if k == 0 then [] else [LowByte(v)] + LeBytes(v / 256, k - 1)
  }

  function LeVal(s: seq<byte>): nat {
    if s == [] then 0 else s[0] as int + 256 * LeVal(s[1..])
  }

  lemma {:induction false} LeRoundTrip(v: nat, k: nat)
    requires v < Pow(256, k)
    ensures LeVal(LeBytes(v, k)) == v
  {
    if k != 0 {
      LeRoundTrip(v / 256, k - 1);
      assert LeBytes(v, k)[1..] == LeBytes(v / 256, k - 1);
    }
  }

  lemma {:induction false} LeValBack(s: seq<byte>)
    ensures LeBytes(LeVal(s), |s|) == s && LeVal(s) < Pow(256, |s|)
  {
    if s != [] {
      var (b, rest) := (s[0], s[1..]);
      LeValBack(rest);
      DivModUnique(LeVal(s), 256, LeVal(rest), b as int);
      SameByte(LowByte(LeVal(s)), b);
      assert s == [b] + rest;
    }
  }

  lemma SameByte(b: byte, c: byte)
    requires b as int == c as int
    ensures b == c
  {
    ByteOfInt(b);
    ByteOfInt(c);
  }

  lemma Widths()
    ensures Pow(256, 1) == U8 && Pow(256, 2) == U16 && Pow(256, 4) == U32 && Pow(256, 8) == U64
  {
    assert Pow(256, 3) == 0x100_0000;
    PowAdd(256, 4, 4);
  }

  // The four unsigned formats B, H, I and Q.
  lemma PackedValue(v: nat, k: nat)
    requires (k == 1 && v < U8) || (k == 2 && v < U16) || (k == 4 && v < U32) || (k == 8 && v < U64)
    ensures LeVal(LeBytes(v, k)) == v
  {
    Widths();
    LeRoundTrip(v, k);
  }

  // The lowest byte comes first.
  lemma {:induction false} LeBytesAt(v: nat, k: nat, i: nat)
    requires i < k
    ensures Pow(256, i) > 0 && LeBytes(v, k)[i] as int == v / Pow(256, i) % 256
  {
    PowPositive(256, i);
    if i == 0 {
      assert LeBytes(v, k)[0] == LowByte(v);
    } else {
      LeBytesAt(v / 256, k - 1, i - 1);
      assert LeBytes(v, k)[i] == LeBytes(v / 256, k - 1)[i - 1];
      DivTwice(v, 256, Pow(256, i - 1));
    }
  }

  lemma DivTwice(v: nat, a: nat, b: nat)
    requires a > 0 && b > 0
    ensures a * b > 0 && v / a / b == v / (a * b)
  {
    var (q, r) := (v / a, v % a);
    var (s, t) := (q / b, q % b);
    assert v == a * (b * s + t) + r;
    MulAssociative(a, b, s);
    assert v == (a * b) * s + (a * t + r);
    MulMonotone(a, t, b - 1);
    MulPositive(a, b);
    DivModUnique(v, a * b, s, a * t + r);
  }

  // s[lo:hi] with 0 <= lo and 0 <= hi
  function Slice(s: seq<byte>, lo: nat, hi: nat): (r: seq<byte>)
    ensures lo <= hi <= |s| ==> r == s[lo..hi]
  {
    var h := if hi > |s| then |s| else hi;
    if lo >= h then [] else s[lo..h]
  }
}
