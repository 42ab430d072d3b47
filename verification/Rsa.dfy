/** Application/UefiAvb/libavb/avb_rsa.c: word arrays, 64-bit carry chains and in-place
    reduction, each method tied to the numbers of module Montgomery. */
module Rsa {
  import opened ModularArithmetic
  import opened Montgomery
  import opened Bytes
  import opened ByteOrder

  const TWO63 := 0x8000_0000_0000_0000
  const TWO64 := 0x1_0000_0000_0000_0000

  type i64 = x: int | -0x8000_0000_0000_0000 <= x < 0x8000_0000_0000_0000

  // C's conversions to uint64_t and int64_t.
  function ToU64(x: int): u64 { x % TWO64 }

  function ToI64(x: int): i64 {
    var y := x % TWO64;
    if y >= TWO63 then y - TWO64 else y
  }

  // A parsed key, as numbers: modulus, stored inverse, stored R^2 and word count.
  datatype KeyNumbers = KeyNumbers(n: nat, n0inv: u32, rr: nat, k: nat) {
    predicate IsConsistent() { Consistent(n, n0inv, rr, k) }
  }

  // The block that the signature opens to, whatever key it is.
  function Opened(key: KeyNumbers, sig: seq<byte>): (s: seq<byte>)
    ensures |s| == |sig|
  {
    BeBytes(PowF4Words(key.n, key.n0inv, key.rr, key.k, BeVal(sig)), |sig|)
  }

  class IAvbKey {
    const len: nat
    const n0inv: u32
    const n: array<u32>
    const rr: array<u32>

    constructor (len: nat, n0inv: u32, n: array<u32>, rr: array<u32>)
      ensures this.len == len && this.n0inv == n0inv && this.n == n && this.rr == rr
    {
      this.len, this.n0inv, this.n, this.rr := len, n0inv, n, rr;
    }

    // The two word arrays have the stated length and are separate allocations.
    predicate Shaped() {
      0 < len == n.Length == rr.Length && n != rr
    }

    function N(): nat reads n { Val(n[..]) }

    function RR(): nat reads rr { Val(rr[..]) }

    function R(): (r: nat) ensures r > 0 { Radix(len) }

    function Numbers(): KeyNumbers reads n, rr { KeyNumbers(N(), n0inv, RR(), len) }
  }

  lemma WordProduct(x: u32, y: u32)
    ensures 0 <= x * y <= (BASE - 1) * (BASE - 1)
  {
    MulMonotone(x, 0, y);
    MulMonotone(x, y, BASE - 1);
  }

  // The unsigned subtraction and the signed accumulator wrap, yet give the exact difference.
  lemma SignedDifference(A: i64, x: u32, y: u32)
    requires -1 <= A <= 0
    ensures ToI64((ToU64(A) + ToU64(x as int - y as int)) % TWO64) == A + x - y
  {
    var d := x as int - y as int;
    assert ToU64(d) == if d >= 0 then d else d + TWO64;
    assert ToU64(A) == if A == 0 then 0 else TWO64 - 1;
    assert (ToU64(A) + ToU64(d)) % TWO64 == if A + d >= 0 then A + d else A + d + TWO64;
  }

  // a[] -= mod
  method SubM(key: IAvbKey, a: array<u32>)
    requires key.Shaped() && a.Length == key.len && a != key.n
    modifies a
    ensures Val(a[..]) == (old(Val(a[..])) - key.N()) % key.R()
  {
    var A: i64 := 0;
    var i := 0;
    ghost var a0 := a[..];
    while i < key.len
      invariant 0 <= i <= key.len
      invariant -1 <= A <= 0
      invariant a[i..] == a0[i..]
      invariant Val(a[..i]) == Val(a0[..i]) - Val(key.n[..i]) - A * Radix(i)
    {
      ghost var (front, A0) := (a[..i], A);
      A := Difference(A, a[i], key.n[i]);
      ghost var D := A;
      a[i] := A % BASE;
      A := A / BASE;
      assert a[..i] == front;
      SamePrefixes(a, key.n, i);
      BorrowPrefix(a[..], a0, key.n[..], i, A0, D);
      SamePrefixes(a, key.n, i + 1);
      i := i + 1;
    }
    SamePrefixes(a, key.n, i);
    WholeVal(a[..]);
    WholeVal(a0);
    WholeVal(key.n[..]);
    ValBound(a[..]);
    Reduced(Val(a[..]), Val(a0) - key.N(), A, key.R());
  }

  // The accumulator of one word; its low half is the new word, its high half the borrow.
  method Difference(A: i64, x: u32, y: u32) returns (A': i64)
    requires -1 <= A <= 0
    ensures A' == A + x - y
  {
    SignedDifference(A, x, y);
    A' := ToI64((ToU64(A) + ToU64(x as int - y as int)) % TWO64);
  }

  lemma SamePrefixes(a: array<u32>, n: array<u32>, i: nat)
    requires i <= a.Length && i <= n.Length
    ensures a[..][..i] == a[..i] && n[..][..i] == n[..i]
  {
  }

  lemma BorrowPrefix(a: seq<u32>, a0: seq<u32>, n: seq<u32>, i: nat, A0: int, D: int)
    requires |a| == |a0| == |n| && i < |a|
    requires Val(a[..i]) == Val(a0[..i]) - Val(n[..i]) - A0 * Radix(i)
    requires D == A0 + a0[i] - n[i] && a[i] == D % BASE
    ensures Val(a[..i + 1]) == Val(a0[..i + 1]) - Val(n[..i + 1]) - D / BASE * Radix(i + 1)
  {
    ValPrefix(a, i);
    ValPrefix(a0, i);
    ValPrefix(n, i);
    BorrowStep(a0[i], n[i], A0, D, Radix(i));
  }

  lemma WholeVal(s: seq<u32>)
    ensures Val(s[..|s|]) == Val(s)
  {
    WholePrefix(s, |s|);
  }

  lemma Reduced(v: nat, x: int, A: int, r: nat)
    requires v < r && v == x - A * r
    ensures v == x % r
  {
    DivModUnique(x, r, A, v);
  }

  lemma BorrowStep(x: u32, y: u32, A0: int, D: int, p: int)
    requires D == A0 + x - y
    ensures (D % BASE) * p - A0 * p == x * p - y * p - (D / BASE) * (BASE * p)
  {
    var (q, r) := (D / BASE, D % BASE);
    assert q * (BASE * p) == (q * BASE) * p by { MulAssociative(q, BASE, p); }
    assert r + q * BASE == A0 + x - y;
    assert (r + q * BASE) * p == r * p + (q * BASE) * p;
    assert (A0 + x - y) * p == A0 * p + x * p - y * p;
  }

  lemma TopWord(s: seq<u32>, i: nat)
    requires i < |s|
    ensures Val(s[..i + 1]) == Val(s[..i]) + s[i] * Radix(i) && Val(s[..i]) < Radix(i)
  {
    ValPrefix(s, i);
    ValBound(s[..i]);
  }

  lemma HigherWordWins(u: nat, x: u32, v: nat, y: u32, p: nat)
    requires u < p && x < y
    ensures u + x * p < v + y * p
  {
    MulMonotone(p, x + 1, y);
  }

  // return a[] >= mod
  method GeM(key: IAvbKey, a: array<u32>) returns (ge: bool)
    requires key.Shaped() && a.Length == key.len
    ensures ge == (Val(a[..]) >= key.N())
  {
    var i := key.len;
    while i > 0
      invariant 0 <= i <= key.len
      invariant i == key.len ==> a[..i] == a[..] && key.n[..i] == key.n[..]
      invariant Val(a[..]) - Val(a[..i]) == key.N() - Val(key.n[..i])
    {
      i := i - 1;
      TopWord(a[..], i);
      TopWord(key.n[..], i);
      if a[i] < key.n[i] {
        HigherWordWins(Val(a[..i]), a[i], Val(key.n[..i]), key.n[i], Radix(i));
        return false;
      }
      if a[i] > key.n[i] {
        HigherWordWins(Val(key.n[..i]), key.n[i], Val(a[..i]), a[i], Radix(i));
        return true;
      }
    }
    return true;
  }

  // ----- montgomery c[] += a * b[] / R % mod

  // The sums of one loop iteration fit in 64 bits.
  lemma CarryFits(a: u32, x: u32, y: u32, high: u32)
    ensures 0 <= high + a * x + y < TWO64
  {
    WordProduct(a, x);
  }

  // One iteration: the low word of B moves down one place, both carries move up one.
  lemma MontColumn(hiA: int, hiB: int, ab: int, ci: int, dn: int, A: int, B: int, q: int)
    requires A == hiA + ab + ci && B == hiB + dn + A % BASE
    ensures (hiA + hiB) * (BASE * q) + (ci + ab + dn) * (BASE * q)
         == BASE * ((B % BASE) * q) + (A / BASE + B / BASE) * (BASE * (BASE * q))
  {
    var p := BASE * q;
    var (s, r) := (A / BASE + B / BASE, B % BASE);
    assert hiA + hiB + ci + ab + dn == r + BASE * s;
    assert (hiA + hiB) * p + (ci + ab + dn) * p == (r + BASE * s) * p;
    assert (r + BASE * s) * p == r * p + (BASE * s) * p;
    assert (BASE * s) * p == s * (BASE * p);
    assert r * p == BASE * (r * q);
  }

  ghost predicate ColumnSum(c0: seq<u32>, c: seq<u32>, a: u32, b: seq<u32>, d0: u32, n: seq<u32>,
                            r0: u32, carry: int, i: nat)
    requires 1 <= i <= |c0| == |c| == |b| == |n|
  {
    Val(c0[..i]) + a * Val(b[..i]) + d0 * Val(n[..i])
      == r0 + BASE * Val(c[..i - 1]) + carry * Radix(i)
  }

  lemma ColumnSumStart(c0: seq<u32>, a: u32, b: seq<u32>, d0: u32, n: seq<u32>, A: u64, B: u64)
    requires 1 <= |c0| == |b| == |n|
    requires A == a * b[0] + c0[0] && B == d0 * n[0] + A % BASE
    ensures ColumnSum(c0, c0, a, b, d0, n, B % BASE, A / BASE + B / BASE, 1)
  {
    TopWord(c0, 0);
    TopWord(b, 0);
    TopWord(n, 0);
    assert Radix(0) == 1 && Radix(1) == BASE;
    assert Val(c0[..1]) == c0[0] && Val(b[..1]) == b[0] && Val(n[..1]) == n[0];
    assert c0[0] + a * b[0] + d0 * n[0] == B % BASE + (A / BASE + B / BASE) * BASE;
  }

  lemma ColumnSumStep(c0: seq<u32>, c: seq<u32>, a: u32, b: seq<u32>, d0: u32, n: seq<u32>,
                      r0: u32, hiA: int, hiB: int, i: nat, A: u64, B: u64)
    requires 1 <= i < |c0| == |c| == |b| == |n|
    requires ColumnSum(c0, c, a, b, d0, n, r0, hiA + hiB, i)
    requires A == hiA + a * b[i] + c0[i] && B == hiB + d0 * n[i] + A % BASE
    ensures ColumnSum(c0, c[i - 1 := B % BASE], a, b, d0, n, r0, A / BASE + B / BASE, i + 1)
  {
    var q := Radix(i - 1);
    var c' := c[i - 1 := B % BASE];
    ValPrefix(c0, i);
    ValPrefix(b, i);
    ValPrefix(n, i);
    ValPrefix(c', i - 1);
    assert c'[..i - 1] == c[..i - 1];
    assert Radix(i) == BASE * q && Radix(i + 1) == BASE * (BASE * q);
    ColumnArithmetic(Val(c0[..i]), Val(b[..i]), Val(n[..i]), Val(c[..i - 1]), c0[i], b[i], n[i],
                     a, d0, r0, hiA, hiB, A, B, q);
  }

  lemma ColumnArithmetic(vc0: int, vb: int, vn: int, vc: int, ci: int, bi: int, ni: int,
                         a: int, d0: int, r0: int, hiA: int, hiB: int, A: int, B: int, q: int)
    requires vc0 + a * vb + d0 * vn == r0 + BASE * vc + (hiA + hiB) * (BASE * q)
    requires A == hiA + a * bi + ci && B == hiB + d0 * ni + A % BASE
    ensures (vc0 + ci * (BASE * q)) + a * (vb + bi * (BASE * q)) + d0 * (vn + ni * (BASE * q))
         == r0 + BASE * (vc + (B % BASE) * q) + (A / BASE + B / BASE) * (BASE * (BASE * q))
  {
    var p := BASE * q;
    var (ab, dn) := (a * bi, d0 * ni);
    MontColumn(hiA, hiB, ab, ci, dn, A, B, q);
    Distribute(a, vb, bi, p);
    Distribute(d0, vn, ni, p);
    SumTimes(ci, ab, dn, p);
  }

  lemma SumTimes(x: int, y: int, z: int, p: int)
    ensures x * p + y * p + z * p == (x + y + z) * p
  {
  }

  lemma Distribute(a: int, v: int, x: int, p: int)
    ensures a * (v + x * p) == a * v + (a * x) * p
  {
    MulAssociative(a, x, p);
    assert a * (v + x * p) == a * v + a * (x * p);
  }

  // After the last column the carries make the top word, and the whole is the exact
  // quotient of MontStep with its possible carry out of the top word.
  lemma ColumnSumEnd(c0: seq<u32>, c: seq<u32>, a: u32, b: seq<u32>, d0: u32, n: seq<u32>,
                     r0: u32, A: nat)
    requires 1 <= |c0| == |c| == |b| == |n|
    requires ColumnSum(c0, c, a, b, d0, n, r0, A, |c|)
    requires A < 2 * BASE
    ensures var t := (Val(c0) + a * Val(b) + d0 * Val(n)) / BASE;
            t == Val(c[|c| - 1 := A % BASE]) + (A / BASE) * Radix(|c|)
  {
    var k := |c|;
    var q := Radix(k - 1);
    var c' := c[k - 1 := A % BASE];
    assert c0[..k] == c0 && b[..k] == b && n[..k] == n;
    ValPrefix(c', k - 1);
    assert c'[..k] == c' && c'[..k - 1] == c[..k - 1];
    assert Radix(k) == BASE * q;
    var t := Val(c') + (A / BASE) * Radix(k);
    calc {
      BASE * t;
      BASE * Val(c[..k - 1]) + BASE * ((A % BASE) * q) + BASE * ((A / BASE) * (BASE * q));
      { TopCarry(A, q); }
      BASE * Val(c[..k - 1]) + A * (BASE * q);
    }
    DivModUnique(Val(c0) + a * Val(b) + d0 * Val(n), BASE, t, r0);
  }

  lemma TopCarry(A: nat, q: nat)
    ensures BASE * ((A % BASE) * q) + BASE * ((A / BASE) * (BASE * q)) == A * (BASE * q)
  {
    var (h, l) := (A / BASE, A % BASE);
    assert A == l + h * BASE;
    assert h * (BASE * q) == (h * BASE) * q by { MulAssociative(h, BASE, q); }
    assert (l + h * BASE) * q == l * q + (h * BASE) * q;
    assert A * (BASE * q) == BASE * (A * q);
  }

  // The first column decides the Montgomery quotient digit.
  lemma QuotientDigit(c: seq<u32>, a: u32, b: seq<u32>)
    requires |c| == |b| >= 1
    ensures (Val(c) + a * Val(b)) % BASE == (a * b[0] + c[0]) % BASE
  {
    var (u, v) := (Val(c[1..]), Val(b[1..]));
    SplitLow(a, b[0], v);
    CongruentBy(Val(c) + a * Val(b), a * b[0] + c[0], BASE, u + a * v);
  }

  lemma SplitLow(a: int, x: int, v: int)
    ensures a * (x + BASE * v) == a * x + BASE * (a * v)
  {
    assert a * (x + BASE * v) == a * x + a * (BASE * v);
    assert a * (BASE * v) == (a * v) * BASE by { assert BASE * v == v * BASE; MulAssociative(a, v, BASE); }
  }

  method MontMulAdd(key: IAvbKey, c: array<u32>, a: u32, b: array<u32>)
    requires key.Shaped() && c.Length == b.Length == key.len
    requires c != b && c != key.n
    modifies c
    ensures Val(c[..]) == MontStep(key.N(), key.n0inv, key.R(), old(Val(c[..])), a, Val(b[..]))
  {
    ghost var (c0, bs, ns) := (c[..], b[..], key.n[..]);
    WordProduct(a, b[0]);
    var A: u64 := a * b[0] + c[0];
    var d0: u32 := Digit(A % BASE, key.n0inv);
    WordProduct(d0, key.n[0]);
    var B: u64 := d0 * key.n[0] + A % BASE;
    ghost var r0 := B % BASE;
    ColumnSumStart(c0, a, bs, d0, ns, A, B);

    var i := 1;
    while i < key.len
      invariant 1 <= i <= key.len
      invariant forall j :: i <= j < key.len ==> c[j] == c0[j]
      invariant ColumnSum(c0, c[..], a, bs, d0, ns, r0, A / BASE + B / BASE, i)
    {
      ghost var (cs, hiA, hiB) := (c[..], A / BASE, B / BASE);
      CarryFits(a, b[i], c[i], A / BASE);
      A := A / BASE + a * b[i] + c[i];
      CarryFits(d0, key.n[i], A % BASE, B / BASE);
      B := B / BASE + d0 * key.n[i] + A % BASE;
      c[i - 1] := B % BASE;
      ColumnSumStep(c0, cs, a, bs, d0, ns, r0, hiA, hiB, i, A, B);
      assert c[..] == cs[i - 1 := B % BASE];
      i := i + 1;
    }

    ghost var cs := c[..];
    A := A / BASE + B / BASE;
    ColumnSumEnd(c0, cs, a, bs, d0, ns, r0, A);
    c[i - 1] := A % BASE;
    assert c[..] == cs[key.len - 1 := (A % BASE) as u32];
    QuotientDigit(c0, a, bs);
    ValBound(c[..]);
    ghost var (low, carry) := (Val(c[..]), A / BASE);
    StepFromColumns(key.N(), key.n0inv, key.R(), Val(c0), a, Val(bs), d0, low, carry);

    if A / BASE != 0 {
      SubM(key, c);
    }
  }

  lemma StepFromColumns(n: nat, n0inv: u32, r: nat, c: nat, a: u32, b: nat, d0: u32, low: nat, carry: nat)
    requires low < r && carry <= 1
    requires d0 == Digit((c + a * b) % BASE, n0inv)
    requires (c + a * b + d0 * n) / BASE == low + carry * r
    ensures MontStep(n, n0inv, r, c, a, b) == if carry == 0 then low else (low - n) % r
  {
    if carry == 1 {
      CongruentBy(low + r - n, low - n, r, 1);
    }
  }

  // ----- montgomery c[] = a[] * b[] / R % mod

  lemma {:induction false} ValZeros(s: seq<u32>)
    requires forall i :: 0 <= i < |s| ==> s[i] == 0
    ensures Val(s) == 0
  {
    if s != [] { ValZeros(s[1..]); }
  }

  method MontMul(key: IAvbKey, c: array<u32>, a: array<u32>, b: array<u32>)
    requires key.Shaped() && c.Length == a.Length == b.Length == key.len
    requires c != a && c != b && c != key.n
    modifies c
    ensures Val(c[..]) == MontProduct(key.N(), key.n0inv, key.R(), a[..], Val(b[..]))
    ensures Val(c[..]) == MontMulWords(key.N(), key.n0inv, key.len, Val(a[..]), Val(b[..]))
  {
    var i := 0;
    while i < key.len
      invariant 0 <= i <= key.len
      invariant forall j :: 0 <= j < i ==> c[j] == 0
    {
      c[i] := 0;
      i := i + 1;
    }
    ValZeros(c[..]);
    i := 0;
    while i < key.len
      invariant 0 <= i <= key.len
      invariant Val(c[..]) == MontProduct(key.N(), key.n0inv, key.R(), a[..i], Val(b[..]))
    {
      MontMulAdd(key, c, a[i], b);
      assert a[..i + 1][..i] == a[..i];
      i := i + 1;
    }
    assert a[..i] == a[..];
    WordsVal(a[..]);
  }

  // ----- big-endian bytes to little-endian words and back

  lemma {:induction false} RadixBytes(k: nat)
    ensures Pow(256, 4 * k) == Radix(k)
  {
    if k > 0 {
      RadixBytes(k - 1);
      var p := Pow(256, 4 * k - 4);
      assert Pow(256, 4 * k - 3) == 256 * p;
      assert Pow(256, 4 * k - 2) == 256 * Pow(256, 4 * k - 3);
      assert Pow(256, 4 * k - 1) == 256 * Pow(256, 4 * k - 2);
    }
  }

  // The word that four big-endian bytes make; the shifted bytes do not overlap, so the
  // bitwise or of the source is their sum.
  function WordAt(s: seq<byte>, o: nat): (w: u32)
    requires o + 4 <= |s|
    ensures w == BeVal(s[o..o + 4])
  {
    BeVal4(s[o..o + 4]);
    s[o] as int * 0x100_0000 + s[o + 1] as int * 0x1_0000 + s[o + 2] as int * 0x100 + s[o + 3] as int
  }

  // The words read from the far end of a byte string so far make the number of its tail.
  lemma NextWord(s: seq<byte>, ws: seq<u32>, k: nat, i: nat)
    requires |s| == 4 * k && i < k && |ws| == i + 1
    requires Val(ws[..i]) == BeVal(s[4 * (k - i)..]) && ws[i] == WordAt(s, 4 * (k - 1 - i))
    ensures Val(ws) == BeVal(s[4 * (k - 1 - i)..])
  {
    var o := 4 * (k - 1 - i);
    assert s[o..] == s[o..o + 4] + s[o + 4..];
    BeValConcat(s[o..o + 4], s[o + 4..]);
    RadixBytes(i);
    ValPrefix(ws, i);
    assert ws[..i + 1] == ws;
  }

  method BytesToWords(inout: array<byte>, a: array<u32>)
    requires inout.Length == 4 * a.Length
    modifies a
    ensures Val(a[..]) == BeVal(inout[..])
  {
    var len := a.Length;
    var i := 0;
    assert inout[..][4 * len..] == [];
    while i < len
      invariant 0 <= i <= len
      invariant Val(a[..i]) == BeVal(inout[..][4 * (len - i)..])
    {
      ghost var front := a[..i];
      var tmp := inout[(len - 1 - i) * 4] as int * 0x100_0000
              + inout[(len - 1 - i) * 4 + 1] as int * 0x1_0000
              + inout[(len - 1 - i) * 4 + 2] as int * 0x100
              + inout[(len - 1 - i) * 4 + 3] as int;
      assert tmp == WordAt(inout[..], 4 * (len - 1 - i));
      a[i] := tmp;
      assert a[..i + 1][..i] == front;
      NextWord(inout[..], a[..i + 1], len, i);
      i := i + 1;
    }
    assert a[..i] == a[..] && inout[..][0..] == inout[..];
  }

  function BytesOf(w: u32): (s: seq<byte>)
    ensures |s| == 4 && BeVal(s) == w
  {
    var s := [LowByte(w / 0x100_0000), LowByte(w / 0x1_0000), LowByte(w / 0x100), LowByte(w)];
    BeVal4(s);
    FourBytes(w);
    s
  }

  lemma FourBytes(w: u32)
    ensures ((w / 0x100_0000 % 256 * 256 + w / 0x1_0000 % 256) * 256 + w / 0x100 % 256) * 256 + w % 256 == w
  {
    var (w1, w2) := (w / 0x100, w / 0x1_0000);
    assert w1 / 0x100 == w2 && w2 / 0x100 == w / 0x100_0000;
  }

  lemma NextBytes(out: seq<byte>, four: seq<byte>, ws: seq<u32>, i: nat)
    requires i < |ws| && |four| == 4
    requires BeVal(out) == Val(ws[i + 1..]) && BeVal(four) == ws[i]
    ensures BeVal(out + four) == Val(ws[i..])
  {
    BeValConcat(out, four);
    assert Pow(256, 4) == BASE;
    assert ws[i..][1..] == ws[i + 1..];
  }

  method StoreWord(inout: array<byte>, o: nat, tmp: u32)
    requires o + 4 <= inout.Length
    modifies inout
    ensures inout[..o] == old(inout[..o]) && inout[o..o + 4] == BytesOf(tmp)
    ensures inout[o + 4..] == old(inout[o + 4..])
  {
    inout[o] := LowByte(tmp / 0x100_0000);
    inout[o + 1] := LowByte(tmp / 0x1_0000);
    inout[o + 2] := LowByte(tmp / 0x100);
    inout[o + 3] := LowByte(tmp);
  }

  method WordsToBytes(aaa: array<u32>, inout: array<byte>)
    requires inout.Length == 4 * aaa.Length
    modifies inout
    ensures BeVal(inout[..]) == Val(aaa[..])
  {
    var i := aaa.Length - 1;
    var o := 0;
    assert aaa[..][aaa.Length..] == [] && inout[..0] == [];
    while i >= 0
      invariant -1 <= i < aaa.Length
      invariant o == 4 * (aaa.Length - 1 - i)
      invariant BeVal(inout[..o]) == Val(aaa[..][i + 1..])
    {
      ghost var out := inout[..o];
      var tmp := aaa[i];
      StoreWord(inout, o, tmp);
      NextBytes(out, BytesOf(tmp), aaa[..], i);
      assert inout[..o + 4] == out + BytesOf(tmp);
      o := o + 4;
      i := i - 1;
    }
    assert i == -1;
    WholePrefix(inout[..], o);
    assert inout[..][..o] == inout[..o];
  }

  lemma WholePrefix<T>(s: seq<T>, o: nat)
    requires o == |s|
    ensures s[..o] == s
  {
  }

  // Two squarings, the words going from aR to aaR and back.
  method SquareTwice(key: IAvbKey, aR: array<u32>, aaR: array<u32>, ghost start: nat, ghost i: nat)
    requires key.Shaped() && aR.Length == aaR.Length == key.len
    requires aR != aaR && aR != key.n && aaR != key.n
    requires Val(aR[..]) == MontSquares(key.N(), key.n0inv, key.len, start, i)
    modifies aR, aaR
    ensures Val(aR[..]) == MontSquares(key.N(), key.n0inv, key.len, start, i + 2)
  {
    MontMul(key, aaR, aR, aR);
    assert Val(aaR[..]) == MontSquares(key.N(), key.n0inv, key.len, start, i + 1);
    MontMul(key, aR, aaR, aaR);
  }

  method SquareSixteen(key: IAvbKey, aR: array<u32>, aaR: array<u32>)
    requires key.Shaped() && aR.Length == aaR.Length == key.len
    requires aR != aaR && aR != key.n && aaR != key.n
    modifies aR, aaR
    ensures Val(aR[..]) == MontSquares(key.N(), key.n0inv, key.len, old(Val(aR[..])), 16)
  {
    ghost var (start, pairs) := (Val(aR[..]), 0);
    var i := 0;
    while i < 16
      invariant 0 <= i == 2 * pairs <= 16
      invariant Val(aR[..]) == MontSquares(key.N(), key.n0inv, key.len, start, i)
    {
      SquareTwice(key, aR, aaR, start, i);
      i, pairs := i + 2, pairs + 1;
    }
  }

  // Make sure aaa < mod; the comparison and the subtraction of the source.
  method SubtractIfGe(key: IAvbKey, aaa: array<u32>)
    requires key.Shaped() && aaa.Length == key.len && aaa != key.n
    modifies aaa
    ensures var v := old(Val(aaa[..]));
            Val(aaa[..]) == if v >= key.N() then v - key.N() else v
  {
    ghost var v := Val(aaa[..]);
    ValBound(aaa[..]);
    var ge := GeM(key, aaa);
    if ge {
      SubM(key, aaa);
      DivModUnique(v - key.N(), key.R(), 0, v - key.N());
    }
  }

  // In-place public exponentiation; the buffers are freshly allocated, as in the source.
  method ModpowF4(key: IAvbKey, inout: array<byte>)
    requires key.Shaped() && inout.Length == 4 * key.len
    modifies inout
    ensures inout[..] == Opened(key.Numbers(), old(inout[..]))
    ensures key.Numbers().IsConsistent() ==>
              inout[..] == BeBytes(Pow(old(BeVal(inout[..])), F4) % key.N(), inout.Length)
  {
    var a := new u32[key.len];
    var aR := new u32[key.len];
    var aaR := new u32[key.len];
    ghost var (n, rr, x) := (key.N(), key.RR(), BeVal(inout[..]));

    BytesToWords(inout, a);
    ValBound(a[..]);
    MontMul(key, aR, a, key.rr);
    SquareSixteen(key, aR, aaR);
    var aaa := aaR;
    MontMul(key, aaa, aR, a);
    SubtractIfGe(key, aaa);
    assert Val(aaa[..]) == PowF4Words(n, key.n0inv, rr, key.len, x);
    WordsToBytes(aaa, inout);
    BeBytesVal(inout[..]);
    PowF4Final(n, key.n0inv, rr, key.len, x);
  }

  lemma PowF4Final(n: nat, n0inv: u32, rr: nat, k: nat, x: nat)
    requires x < Radix(k)
    ensures Consistent(n, n0inv, rr, k) ==> PowF4Words(n, n0inv, rr, k, x) == Pow(x, F4) % n
  {
    if Consistent(n, n0inv, rr, k) {
      PowF4Correct(n, n0inv, rr, k, x);
    }
  }

  // ----- the public key blob

  const HEADER_SIZE := 8

  function KeyNumBits(data: seq<byte>): nat
    requires |data| >= HEADER_SIZE
  {
    WordAt(data, 0)
  }

  // The lengths that the parser accepts: 2048, 4096 or 8192 bits, two numbers after the header.
  predicate KeyLengthsOk(data: seq<byte>, length: nat)
    requires |data| >= HEADER_SIZE
  {
    var bits := KeyNumBits(data);
    (bits == 2048 || bits == 4096 || bits == 8192) && length == HEADER_SIZE + 2 * bits / 8
  }

  function BlobKey(data: seq<byte>): KeyNumbers
    requires |data| >= HEADER_SIZE && KeyLengthsOk(data, |data|)
  {
    var k := KeyNumBits(data) / 32;
    KeyNumbers(BeVal(data[HEADER_SIZE..HEADER_SIZE + 4 * k]), WordAt(data, 4),
               BeVal(data[HEADER_SIZE + 4 * k..]), k)
  }

  // Big-endian bytes at offset o become little-endian words.
  method ReverseWords(data: array<byte>, ghost bytes: seq<byte>, o: nat, len: nat) returns (ws: array<u32>)
    requires o + 4 * len <= data.Length && data[..] == bytes
    ensures fresh(ws) && ws.Length == len
    ensures Val(ws[..]) == BeVal(bytes[o..o + 4 * len])
  {
    ws := new u32[len];
    ghost var s := bytes[o..o + 4 * len];
    var i := 0;
    assert s[4 * len..] == [];
    while i < len
      invariant 0 <= i <= len
      invariant data[..] == bytes
      invariant Val(ws[..i]) == BeVal(s[4 * (len - i)..])
    {
      ghost var front := ws[..i];
      ws[i] := WordAt(data[..], o + 4 * (len - i - 1));
      assert bytes[o + 4 * (len - i - 1)..o + 4 * (len - i - 1) + 4]
          == s[4 * (len - i - 1)..4 * (len - i - 1) + 4];
      assert ws[..i + 1][..i] == front;
      NextWord(s, ws[..i + 1], len, i);
      i := i + 1;
    }
    assert ws[..i] == ws[..] && s[0..] == s;
  }

  // The source reads the header before it looks at the length, so eight bytes must be readable.
  method ParseKeyData(data: array<byte>, length: nat) returns (key: IAvbKey?)
    requires HEADER_SIZE <= data.Length && length <= data.Length
    ensures key != null <==> KeyLengthsOk(data[..], length)
    ensures key != null ==> KeyLengthsOk(data[..length], length)
    ensures key != null ==>
              && fresh(key) && fresh(key.n) && fresh(key.rr) && key.Shaped()
              && key.Numbers() == BlobKey(data[..length])
  {
    ghost var blob := data[..];
    var keyNumBits := WordAt(data[..], 0);
    var n0inv := WordAt(data[..], 4);
    assert keyNumBits == KeyNumBits(blob);
    if !(keyNumBits == 2048 || keyNumBits == 4096 || keyNumBits == 8192) {
      assert !KeyLengthsOk(blob, length);
      return null;
    }
    var expectedLength := HEADER_SIZE + 2 * keyNumBits / 8;
    if length != expectedLength {
      assert !KeyLengthsOk(blob, length);
      return null;
    }
    assert KeyLengthsOk(blob, length);
    key := FillKey(data, length, keyNumBits, n0inv);
  }

  // Lines 73-97: allocate the key and convert its two numbers.
  method FillKey(data: array<byte>, length: nat, keyNumBits: u32, n0inv: u32) returns (key: IAvbKey)
    requires HEADER_SIZE <= length <= data.Length && KeyLengthsOk(data[..], length)
    requires keyNumBits == KeyNumBits(data[..]) && n0inv == WordAt(data[..], 4)
    ensures fresh(key) && fresh(key.n) && fresh(key.rr) && key.Shaped()
    ensures KeyLengthsOk(data[..length], length) && key.Numbers() == BlobKey(data[..length])
  {
    ghost var blob := data[..];
    var len := keyNumBits / 32;
    BlobParts(blob, length, len);
    var n := ReverseWords(data, blob, HEADER_SIZE, len);
    var rr := ReverseWords(data, blob, HEADER_SIZE + keyNumBits / 8, len);
    key := new IAvbKey(len, n0inv, n, rr);
    assert data[..length] == blob[..length];
  }

  lemma BlobParts(data: seq<byte>, length: nat, k: nat)
    requires HEADER_SIZE <= length <= |data| && KeyLengthsOk(data, length) && k == KeyNumBits(data) / 32
    ensures length == HEADER_SIZE + 8 * k && KeyNumBits(data) / 8 == 4 * k && k > 0
    ensures KeyLengthsOk(data[..length], length)
    ensures BlobKey(data[..length]) == KeyNumbers(
              BeVal(data[HEADER_SIZE..HEADER_SIZE + 4 * k]), WordAt(data, 4),
              BeVal(data[HEADER_SIZE + 4 * k..HEADER_SIZE + 4 * k + 4 * k]), k)
  {
    var blob := data[..length];
    assert blob[0..4] == data[0..4] && blob[4..8] == data[4..8];
    assert blob[HEADER_SIZE..HEADER_SIZE + 4 * k] == data[HEADER_SIZE..HEADER_SIZE + 4 * k];
    assert blob[HEADER_SIZE + 4 * k..] == data[HEADER_SIZE + 4 * k..HEADER_SIZE + 4 * k + 4 * k];
  }

  // ----- RSA PKCS#1 v1.5 signature verification

  // The signature of a consistent key opens to the big-endian bytes of sig^65537 mod n.
  lemma OpenedIsPower(key: KeyNumbers, sig: seq<byte>)
    requires |sig| == 4 * key.k
    ensures key.IsConsistent() ==> Opened(key, sig) == BeBytes(Pow(BeVal(sig), F4) % key.n, |sig|)
  {
    BeValBound(sig);
    RadixBytes(key.k);
    PowF4Final(key.n, key.n0inv, key.rr, key.k, BeVal(sig));
  }

  // The verdict of the source on readable inputs, for any key.
  predicate Accepts(key: seq<byte>, sig: seq<byte>, hash: seq<byte>, padding: seq<byte>)
    requires |key| >= HEADER_SIZE
  {
    && KeyLengthsOk(key, |key|)
    && |sig| == 4 * BlobKey(key).k
    && Opened(BlobKey(key), sig) == padding + hash
  }

  // For the keys that a key maker may produce, that verdict is the comparison step of
  // section 8.2.2 of RFC 8017 on the number sig^65537 mod n.
  lemma AcceptsMeaning(key: seq<byte>, sig: seq<byte>, hash: seq<byte>, padding: seq<byte>)
    requires |key| >= HEADER_SIZE && KeyLengthsOk(key, |key|) && BlobKey(key).IsConsistent()
    ensures Accepts(key, sig, hash, padding) <==>
            && |sig| == 4 * BlobKey(key).k
            && BeBytes(Pow(BeVal(sig), F4) % BlobKey(key).n, |sig|) == padding + hash
  {
    if |sig| == 4 * BlobKey(key).k {
      OpenedIsPower(BlobKey(key), sig);
    }
  }

  // Every pointer may be null. Sizes are size_t, so the subtraction of line 259 wraps; the
  // padding and the hash are two objects of one 64-bit address space.
  method AvbRsaVerify(key: array?<byte>, keyNumBytes: nat, sig: array?<byte>, hash: array?<byte>,
                      padding: array?<byte>) returns (success: bool)
    requires key != null ==> HEADER_SIZE <= key.Length && keyNumBytes <= key.Length
    requires hash != null && padding != null ==> padding.Length + hash.Length < TWO64
    ensures success <==>
            && key != null && sig != null && hash != null && padding != null
            && HEADER_SIZE <= keyNumBytes
            && Accepts(key[..keyNumBytes], sig[..], hash[..], padding[..])
  {
    if key == null || sig == null || hash == null || padding == null {
      return false;
    }
    var parsed := ParseKeyData(key, keyNumBytes);
    ghost var (k, s, h, p) := (key[..keyNumBytes], sig[..], hash[..], padding[..]);
    if parsed == null {
      PrefixLengthsOk(key[..], keyNumBytes);
      return false;
    }
    if sig.Length != parsed.len * 4 {
      return false;
    }
    var mismatch := SizesMismatch(padding.Length, sig.Length, hash.Length);
    if mismatch {
      assert |Opened(BlobKey(k), s)| != |p + h|;
      return false;
    }
    success := OpenAndCompare(parsed, sig, hash, padding);
  }

  // Lines 264-289.
  method OpenAndCompare(parsed: IAvbKey, sig: array<byte>, hash: array<byte>, padding: array<byte>) returns (success: bool)
    requires parsed.Shaped() && sig.Length == 4 * parsed.len == padding.Length + hash.Length
    ensures success <==> Opened(parsed.Numbers(), sig[..]) == padding[..] + hash[..]
  {
    ghost var block := Opened(parsed.Numbers(), sig[..]);
    var buf := new byte[sig.Length];
    Memcpy(buf, sig);
    ModpowF4(parsed, buf);
    SplitCompare(block, padding[..], hash[..]);
    success := CompareBlock(buf, padding, hash);
  }

  // The two comparisons of lines 278-287.
  method CompareBlock(buf: array<byte>, padding: array<byte>, hash: array<byte>) returns (same: bool)
    requires buf.Length == padding.Length + hash.Length
    ensures same <==> buf[..padding.Length] == padding[..] && buf[padding.Length..] == hash[..]
  {
    var r := SafeMemcmp(buf, 0, padding, 0, padding.Length);
    assert padding[0..padding.Length] == padding[..];
    if r != 0 {
      return false;
    }
    r := SafeMemcmp(buf, padding.Length, hash, 0, hash.Length);
    assert hash[0..hash.Length] == hash[..];
    return r == 0;
  }

  lemma PrefixLengthsOk(data: seq<byte>, length: nat)
    requires HEADER_SIZE <= |data| && length <= |data|
    ensures HEADER_SIZE <= length && KeyLengthsOk(data[..length], length) ==> KeyLengthsOk(data, length)
  {
    if HEADER_SIZE <= length {
      assert data[..length][0..4] == data[0..4];
    }
  }

  // padding_num_bytes != sig_num_bytes - hash_num_bytes, on size_t: subtracting modulo 2^64
  // still finds exactly the lengths that do not add up.
  method SizesMismatch(p: nat, s: nat, h: nat) returns (differ: bool)
    requires s < TWO64 && p + h < TWO64
    ensures differ <==> p + h != s
  {
    differ := p != (s - h) % TWO64;
  }

  lemma SplitCompare(b: seq<byte>, p: seq<byte>, h: seq<byte>)
    requires |b| == |p| + |h|
    ensures b == p + h <==> b[..|p|] == p && b[|p|..] == h
  {
    assert b == b[..|p|] + b[|p|..];
    if b == p + h {
      assert (p + h)[..|p|] == p && (p + h)[|p|..] == h;
    }
  }

  method Memcpy(dst: array<byte>, src: array<byte>)
    requires dst.Length == src.Length && dst != src
    modifies dst
    ensures dst[..] == src[..]
  {
    var i := 0;
    while i < src.Length
      invariant 0 <= i <= src.Length
      invariant dst[..i] == src[..i]
    {
      dst[i] := src[i];
      i := i + 1;
    }
    assert dst[..i] == dst[..] && src[..i] == src[..];
  }
}
