/** The numbers behind Application/UefiAvb/libavb/avb_rsa.c: what one Montgomery word
    step, one Montgomery product and the 65537-th power compute, without any array. */
module Montgomery {
  import opened ModularArithmetic

  const BASE := 0x1_0000_0000

  type u32 = x: int | 0 <= x < 0x1_0000_0000

  // ----- little-endian word sequences

  function Val(s: seq<u32>): nat {
    if s == [] then 0 else s[0] + BASE * Val(s[1..])
  }

  function Radix(k: nat): (r: nat)
    ensures r > 0
  {
    PowPositive(BASE, k);
    Pow(BASE, k)
  }

  function Words(v: nat, k: nat): (s: seq<u32>)
    ensures |s| == k
  {
    if k == 0 then [] else [v % BASE] + Words(v / BASE, k - 1)
  }

  lemma {:induction false} ValSnoc(s: seq<u32>, x: u32)
    ensures Val(s + [x]) == Val(s) + x * Radix(|s|)
  {
    if s == [] {
      assert [x][1..] == [];
    } else {
      assert (s + [x])[1..] == s[1..] + [x];
      ValSnoc(s[1..], x);
      var r := Radix(|s| - 1);
      assert BASE * (Val(s[1..]) + x * r) == BASE * Val(s[1..]) + x * (BASE * r);
    }
  }

  lemma ValPrefix(s: seq<u32>, i: nat)
    requires i < |s|
    ensures Val(s[..i + 1]) == Val(s[..i]) + s[i] * Radix(i)
  {
    assert s[..i + 1] == s[..i] + [s[i]];
    ValSnoc(s[..i], s[i]);
  }

  lemma {:induction false} ValBound(s: seq<u32>)
    ensures Val(s) < Radix(|s|)
  {
    if s != [] {
      ValBound(s[1..]);
      MulMonotone(BASE, Val(s[1..]), Radix(|s| - 1) - 1);
    }
  }

  lemma {:induction false} WordsVal(s: seq<u32>)
    ensures Words(Val(s), |s|) == s
  {
    if s != [] {
      DivModUnique(Val(s), BASE, Val(s[1..]), s[0]);
      WordsVal(s[1..]);
    }
  }

  // ----- the Montgomery word step and product

  // The multiple of n that clears the low word w.
  function Digit(w: u32, n0inv: u32): u32 {
    w * n0inv % BASE
  }

  // c + a * b + d0 * n, divided by the word base, with n taken off once if a carry is left.
  function MontStep(n: nat, n0inv: u32, r: nat, c: nat, a: u32, b: nat): (t: nat)
    requires r > 0
  {
    var s := c + a * b;
    var d0 := Digit(s % BASE, n0inv);
    var t := (s + d0 * n) / BASE;
    if t >= r then (t - n) % r else t
  }

  function MontProduct(n: nat, n0inv: u32, r: nat, xs: seq<u32>, b: nat): nat
    requires r > 0
  {
    if xs == [] then 0
    else MontStep(n, n0inv, r, MontProduct(n, n0inv, r, xs[..|xs| - 1], b), xs[|xs| - 1], b)
  }

  // The stored inverse belongs to the modulus: n0inv is -1 / n modulo the word base.
  predicate InverseMatches(n: nat, n0inv: u32) {
    n > 0 && (n0inv * n) % BASE == BASE - 1
  }

  // w plus d times n is 0 modulo the word base when d is w times the stored inverse.
  lemma QuotientCancels(w: int, n: int, n0inv: int, d: int)
    requires Congruent(n0inv * n, -1, BASE) && Congruent(d, w * n0inv, BASE)
    ensures Congruent(w + d * n, 0, BASE)
  {
    CongruentMul(d, w * n0inv, n, n, BASE);
    MulAssociative(w, n0inv, n);
    CongruentScale(n0inv * n, -1, w, BASE);
    CongruentAdd(d * n, w * -1, w, w, BASE);
  }

  lemma MontQuotientExact(n: nat, n0inv: u32, s: nat)
    requires InverseMatches(n, n0inv)
    ensures (s + Digit(s % BASE, n0inv) * n) % BASE == 0
  {
    var w := s % BASE;
    var d0 := Digit(w, n0inv);
    QuotientCancels(w, n, n0inv, d0);
    CongruentAdd(s, w, d0 * n, d0 * n, BASE);
  }

  lemma MontStepBounds(n: nat, n0inv: u32, r: nat, c: nat, a: u32, b: nat)
    requires n < r && c < r && b < r
    ensures var s := c + a * b;
            var d0 := Digit(s % BASE, n0inv);
            var t := (s + d0 * n) / BASE;
            t < r + n && MontStep(n, n0inv, r, c, a, b) < r
            && MontStep(n, n0inv, r, c, a, b) == if t >= r then t - n else t
  {
    var s := c + a * b;
    var d0 := Digit(s % BASE, n0inv);
    var t := (s + d0 * n) / BASE;
    MulMonotone(b, a, BASE - 1);
    MulMonotone(n, d0, BASE - 1);
    assert a * b == b * a && d0 * n == n * d0;
    assert b * (BASE - 1) <= (r - 1) * (BASE - 1);
    assert s + d0 * n < BASE * (r + n);
    if t >= r {
      DivModUnique(t - n, r, 0, t - n);
    }
  }

  lemma MontStepCongruent(n: nat, n0inv: u32, r: nat, c: nat, a: u32, b: nat)
    requires InverseMatches(n, n0inv) && n < r && c < r && b < r
    ensures Congruent(BASE * MontStep(n, n0inv, r, c, a, b), c + a * b, n)
  {
    var s := c + a * b;
    MontStepBounds(n, n0inv, r, c, a, b);
    StepQuotientCongruent(n, n0inv, s);
    EitherCongruent(n, s, r, (s + Digit(s % BASE, n0inv) * n) / BASE, MontStep(n, n0inv, r, c, a, b));
  }

  lemma EitherCongruent(n: nat, s: nat, r: nat, t: nat, m: nat)
    requires n > 0 && m == if t >= r then t - n else t
    requires Congruent(BASE * t, s, n) && Congruent(BASE * (t - n), s, n)
    ensures Congruent(BASE * m, s, n)
  {
  }

  lemma StepQuotientCongruent(n: nat, n0inv: u32, s: nat)
    requires InverseMatches(n, n0inv)
    ensures var t := (s + Digit(s % BASE, n0inv) * n) / BASE;
            Congruent(BASE * t, s, n) && Congruent(BASE * (t - n), s, n)
  {
    var d0 := Digit(s % BASE, n0inv);
    MontQuotientExact(n, n0inv, s);
    ExactQuotientCongruent(n, s, d0 * n, d0);
  }

  lemma ExactQuotientCongruent(n: nat, s: nat, dn: nat, d0: nat)
    requires n > 0 && dn == d0 * n && (s + dn) % BASE == 0
    ensures var t := (s + dn) / BASE;
            Congruent(BASE * t, s, n) && Congruent(BASE * (t - n), s, n)
  {
    var t := (s + dn) / BASE;
    assert BASE * t - s == n * d0;
    CongruentBy(BASE * t, s, n, d0);
    assert BASE * (t - n) - s == n * (d0 - BASE);
    CongruentBy(BASE * (t - n), s, n, d0 - BASE);
  }

  lemma {:induction false} MontProductBound(n: nat, n0inv: u32, r: nat, xs: seq<u32>, b: nat)
    requires n < r && b < r
    ensures MontProduct(n, n0inv, r, xs, b) < r
  {
    if xs != [] {
      MontProductBound(n, n0inv, r, xs[..|xs| - 1], b);
      MontStepBounds(n, n0inv, r, MontProduct(n, n0inv, r, xs[..|xs| - 1], b), xs[|xs| - 1], b);
    }
  }

  // One word step moves the partial product from weight p to weight p * BASE.
  lemma MontAccumulate(n: nat, p: int, c: int, c': int, v: int, x: int, b: int)
    requires n > 0 && Congruent(p * c, v * b, n) && Congruent(BASE * c', c + x * b, n)
    ensures Congruent((BASE * p) * c', (v + x * p) * b, n)
  {
    CongruentScale(BASE * c', c + x * b, p, n);
    CongruentAdd(p * c, v * b, p * (x * b), p * (x * b), n);
    calc {
      (BASE * p) * c';
      { assert BASE * p == p * BASE; MulAssociative(p, BASE, c'); }
      p * (BASE * c');
    }
    assert p * (c + x * b) == p * c + p * (x * b);
    calc {
      (v + x * p) * b;
      v * b + (x * p) * b;
      { assert x * p == p * x; MulAssociative(p, x, b); }
      v * b + p * (x * b);
    }
  }

  // After i word steps the accumulator is the partial product divided by BASE^i, modulo n.
  lemma {:induction false} MontProductCongruent(n: nat, n0inv: u32, r: nat, xs: seq<u32>, b: nat)
    requires InverseMatches(n, n0inv) && n < r && b < r
    ensures Congruent(Radix(|xs|) * MontProduct(n, n0inv, r, xs, b), Val(xs) * b, n)
  {
    if xs != [] {
      var (front, x) := (xs[..|xs| - 1], xs[|xs| - 1]);
      var c := MontProduct(n, n0inv, r, front, b);
      MontProductBound(n, n0inv, r, front, b);
      MontProductCongruent(n, n0inv, r, front, b);
      MontStepCongruent(n, n0inv, r, c, x, b);
      assert xs == front + [x];
      ValSnoc(front, x);
      MontAccumulate(n, Radix(|front|), c, MontProduct(n, n0inv, r, xs, b), Val(front), x, b);
    }
  }

  // ----- R can be cancelled

  lemma RadixInvertible(n: nat, n0inv: u32, k: nat) returns (g: nat)
    requires InverseMatches(n, n0inv)
    ensures Congruent(g * Radix(k), 1, n)
  {
    var s := (n0inv * n + 1) / BASE;
    assert (n0inv * n + 1) % BASE == 0;
    assert s * BASE - 1 == n * n0inv;
    CongruentBy(s * BASE, 1, n, n0inv);
    CongruentPow(s * BASE, 1, k, n);
    PowProduct(s, BASE, k);
    PowOne(k);
    assert s > 0;
    PowPositive(s, k);
    g := Pow(s, k);
  }

  // ----- the public exponentiation

  function MontMulWords(n: nat, n0inv: u32, k: nat, x: nat, y: nat): nat {
    MontProduct(n, n0inv, Radix(k), Words(x, k), y)
  }

  function MontSquares(n: nat, n0inv: u32, k: nat, x: nat, count: nat): nat {
    if count == 0 then x
    else
      var y := MontSquares(n, n0inv, k, x, count - 1);
      MontMulWords(n, n0inv, k, y, y)
  }

  // What the sequence of Montgomery products and the last subtraction leave, for any key.
  function PowF4Words(n: nat, n0inv: u32, rr: nat, k: nat, x: nat): nat {
    var aR := MontMulWords(n, n0inv, k, x, rr);
    var aaa := MontMulWords(n, n0inv, k, MontSquares(n, n0inv, k, aR, 16), x);
    if aaa >= n then aaa - n else aaa
  }

  // A key as its maker promises it: k words with the top bit set, the inverse of the low
  // word, and R squared modulo n.
  predicate Consistent(n: nat, n0inv: u32, rr: nat, k: nat) {
    && InverseMatches(n, n0inv)
    && n < Radix(k) <= 2 * n
    && rr < Radix(k)
    && Congruent(rr, Radix(k) * Radix(k), n)
  }

  const F4 := 65537

  function TwoTo(j: nat): nat { if j == 0 then 1 else 2 * TwoTo(j - 1) }

  lemma {:induction false} WordsInverse(v: nat, k: nat)
    requires v < Radix(k)
    ensures Val(Words(v, k)) == v
  {
    if k > 0 {
      var w := Words(v, k);
      assert v / BASE < Radix(k - 1);
      WordsInverse(v / BASE, k - 1);
      assert w[1..] == Words(v / BASE, k - 1);
    }
  }

  lemma MontMulWordsCongruent(n: nat, n0inv: u32, k: nat, x: nat, y: nat)
    requires InverseMatches(n, n0inv) && n < Radix(k) && x < Radix(k) && y < Radix(k)
    ensures MontMulWords(n, n0inv, k, x, y) < Radix(k)
    ensures Congruent(Radix(k) * MontMulWords(n, n0inv, k, x, y), x * y, n)
  {
    WordsInverse(x, k);
    MontProductBound(n, n0inv, Radix(k), Words(x, k), y);
    MontProductCongruent(n, n0inv, Radix(k), Words(x, k), y);
  }

  // Each squaring keeps the form x^(2^j) * R.
  lemma {:induction false} MontSquaresCongruent(n: nat, n0inv: u32, k: nat, aR: nat, x: nat, j: nat)
    requires InverseMatches(n, n0inv) && n < Radix(k) && aR < Radix(k)
    requires Congruent(aR, x * Radix(k), n)
    ensures MontSquares(n, n0inv, k, aR, j) < Radix(k)
    ensures Congruent(MontSquares(n, n0inv, k, aR, j), Pow(x, TwoTo(j)) * Radix(k), n)
  {
    if j == 0 {
      assert Pow(x, 1) == x * Pow(x, 0) == x;
    } else {
      var r := Radix(k);
      var e := TwoTo(j - 1);
      var p := Pow(x, e);
      var y := MontSquares(n, n0inv, k, aR, j - 1);
      var z := MontSquares(n, n0inv, k, aR, j);
      MontSquaresCongruent(n, n0inv, k, aR, x, j - 1);
      MontMulWordsCongruent(n, n0inv, k, y, y);
      CongruentMul(y, p * r, y, p * r, n);
      PowAdd(x, e, e);
      assert (p * r) * (p * r) == r * ((p * p) * r) by {
        MulSwapMiddle(p, r, p, r);
        MulAssociative(p * p, r, r);
        MulAssociative(p * p, r, r);
      }
      var g := RadixInvertible(n, n0inv, k);
      CongruentCancel(r, g, z, (p * p) * r, n);
    }
  }

  // The first product turns x into x * R, ready for squaring.
  lemma MontEnter(n: nat, n0inv: u32, rr: nat, k: nat, x: nat)
    requires Consistent(n, n0inv, rr, k) && x < Radix(k)
    ensures MontMulWords(n, n0inv, k, x, rr) < Radix(k)
    ensures Congruent(MontMulWords(n, n0inv, k, x, rr), x * Radix(k), n)
  {
    var r := Radix(k);
    var g := RadixInvertible(n, n0inv, k);
    MontMulWordsCongruent(n, n0inv, k, x, rr);
    CongruentScale(rr, r * r, x, n);
    assert x * (r * r) == r * (x * r) by { MulAssociative(x, r, r); }
    CongruentCancel(r, g, MontMulWords(n, n0inv, k, x, rr), x * r, n);
  }

  // The last product multiplies by x once more and drops the factor R.
  lemma MontLeave(n: nat, n0inv: u32, k: nat, s: nat, p: int, x: nat)
    requires InverseMatches(n, n0inv) && n < Radix(k) && s < Radix(k) && x < Radix(k)
    requires Congruent(s, p * Radix(k), n)
    ensures MontMulWords(n, n0inv, k, s, x) < Radix(k)
    ensures Congruent(MontMulWords(n, n0inv, k, s, x), x * p, n)
  {
    var r := Radix(k);
    var g := RadixInvertible(n, n0inv, k);
    MontMulWordsCongruent(n, n0inv, k, s, x);
    CongruentMul(s, p * r, x, x, n);
    assert (p * r) * x == r * (x * p) by { assert p * r == r * p; MulAssociative(r, p, x); }
    CongruentCancel(r, g, MontMulWords(n, n0inv, k, s, x), x * p, n);
  }

  lemma MontChain(n: nat, n0inv: u32, rr: nat, k: nat, x: nat, j: nat) returns (aaa: nat)
    requires Consistent(n, n0inv, rr, k) && x < Radix(k)
    ensures aaa == MontMulWords(n, n0inv, k, MontSquares(n, n0inv, k, MontMulWords(n, n0inv, k, x, rr), j), x)
    ensures aaa < Radix(k) && Congruent(aaa, Pow(x, TwoTo(j) + 1), n)
  {
    var aR := MontMulWords(n, n0inv, k, x, rr);
    var s := MontSquares(n, n0inv, k, aR, j);
    aaa := MontMulWords(n, n0inv, k, s, x);
    MontEnter(n, n0inv, rr, k, x);
    MontSquaresCongruent(n, n0inv, k, aR, x, j);
    MontLeave(n, n0inv, k, s, Pow(x, TwoTo(j)), x);
  }

  lemma ReduceOnce(n: nat, v: nat, p: int)
    requires 0 < n && v < 2 * n && Congruent(v, p, n)
    ensures (if v >= n then v - n else v) == p % n
  {
    if v >= n {
      DivModUnique(v, n, 1, v - n);
    } else {
      DivModUnique(v, n, 0, v);
    }
  }

  lemma TwoTo16()
    ensures TwoTo(16) + 1 == F4
  {
    assert TwoTo(4) == 16;
    assert TwoTo(8) == 256;
    assert TwoTo(12) == 4096;
  }

  // The 65537-th power: exact for every consistent key and every input of k words; the
  // one conditional subtraction at the end is enough.
  lemma PowF4Correct(n: nat, n0inv: u32, rr: nat, k: nat, x: nat)
    requires Consistent(n, n0inv, rr, k) && x < Radix(k)
    ensures PowF4Words(n, n0inv, rr, k, x) == Pow(x, F4) % n
  {
    var aaa := MontChain(n, n0inv, rr, k, x, 16);
    TwoTo16();
    ReduceOnce(n, aaa, Pow(x, F4));
  }
}
