/** What the word operations and constants of SHA-256 mean: bit by bit as in section 4.1.2 of
    FIPS 180-4, and as the fractions of roots of primes of its sections 4.2.2 and 5.3.3. */
module Sha256Meaning {
  import opened Sha256Core
  import opened Sha256Words

  // Bit i, counted from the lowest. Sums of positions are taken modulo 32 by their type.
  predicate Bit(x: bv32, i: bv5) { (x >> i) & 1 == 1 }

  predicate Odd(p: bool, q: bool, r: bool) { (p != q) != r }

  // Upper-case sigma 0: three rotations to the right.
  lemma F1Bits(x: bv32, i: bv5)
    ensures Bit(F1(x), i) <==> Odd(Bit(x, i + 2), Bit(x, i + 13), Bit(x, i + 22))
  {
    match i
    case 0 => case 1 => case 2 => case 3 => case 4 => case 5 => case 6 => case 7 =>
    case 8 => case 9 => case 10 => case 11 => case 12 => case 13 => case 14 => case 15 =>
    case 16 => case 17 => case 18 => case 19 => case 20 => case 21 => case 22 => case 23 =>
    case 24 => case 25 => case 26 => case 27 => case 28 => case 29 => case 30 => case 31 =>
  }

  // Upper-case sigma 1.
  lemma F2Bits(x: bv32, i: bv5)
    ensures Bit(F2(x), i) <==> Odd(Bit(x, i + 6), Bit(x, i + 11), Bit(x, i + 25))
  {
    match i
    case 0 => case 1 => case 2 => case 3 => case 4 => case 5 => case 6 => case 7 =>
    case 8 => case 9 => case 10 => case 11 => case 12 => case 13 => case 14 => case 15 =>
    case 16 => case 17 => case 18 => case 19 => case 20 => case 21 => case 22 => case 23 =>
    case 24 => case 25 => case 26 => case 27 => case 28 => case 29 => case 30 => case 31 =>
  }

  // Lower-case sigma 0: the third term is a shift, which leaves zeros at the upper end.
  lemma F3Bits(x: bv32, i: bv5)
    ensures Bit(F3(x), i) <==> Odd(Bit(x, i + 7), Bit(x, i + 18), i < 29 && Bit(x, i + 3))
  {
    match i
    case 0 => case 1 => case 2 => case 3 => case 4 => case 5 => case 6 => case 7 =>
    case 8 => case 9 => case 10 => case 11 => case 12 => case 13 => case 14 => case 15 =>
    case 16 => case 17 => case 18 => case 19 => case 20 => case 21 => case 22 => case 23 =>
    case 24 => case 25 => case 26 => case 27 => case 28 => case 29 => case 30 => case 31 =>
  }

  // Lower-case sigma 1.
  lemma F4Bits(x: bv32, i: bv5)
    ensures Bit(F4(x), i) <==> Odd(Bit(x, i + 17), Bit(x, i + 19), i < 22 && Bit(x, i + 10))
  {
    match i
    case 0 => case 1 => case 2 => case 3 => case 4 => case 5 => case 6 => case 7 =>
    case 8 => case 9 => case 10 => case 11 => case 12 => case 13 => case 14 => case 15 =>
    case 16 => case 17 => case 18 => case 19 => case 20 => case 21 => case 22 => case 23 =>
    case 24 => case 25 => case 26 => case 27 => case 28 => case 29 => case 30 => case 31 =>
  }

  // Where x has ones the result has the bits of y, elsewhere those of z.
  lemma ChSelects(x: bv32, y: bv32, z: bv32)
    ensures Ch(x, y, z) & x == y & x && Ch(x, y, z) & !x == z & !x
  {
  }

  // Where x has ones one more vote is enough, elsewhere both others are needed.
  lemma MajVotes(x: bv32, y: bv32, z: bv32)
    ensures Maj(x, y, z) & x == (y | z) & x && Maj(x, y, z) & !x == y & z & !x
  {
  }

  // ----- the constants

  // n is the cube root of p in units of 2 to the power of -32, rounded down, and k holds the
  // thirty-two bits behind the point.
  predicate CubeRoot(p: nat, n: nat, k: bv32) {
    n * n * n <= p * 0x1_0000_0000_0000_0000_0000_0000 < (n + 1) * (n + 1) * (n + 1) && n % 0x1_0000_0000 == k as int
  }

  predicate SquareRoot(p: nat, n: nat, k: bv32) {
    n * n <= p * 0x1_0000_0000_0000_0000 < (n + 1) * (n + 1) && n % 0x1_0000_0000 == k as int
  }

  // The first sixty-four primes, eight to a row.
  const PRIMES0: seq<nat> := [2, 3, 5, 7, 11, 13, 17, 19]
  const PRIMES1: seq<nat> := [23, 29, 31, 37, 41, 43, 47, 53]
  const PRIMES2: seq<nat> := [59, 61, 67, 71, 73, 79, 83, 89]
  const PRIMES3: seq<nat> := [97, 101, 103, 107, 109, 113, 127, 131]
  const PRIMES4: seq<nat> := [137, 139, 149, 151, 157, 163, 167, 173]
  const PRIMES5: seq<nat> := [179, 181, 191, 193, 197, 199, 211, 223]
  const PRIMES6: seq<nat> := [227, 229, 233, 239, 241, 251, 257, 263]
  const PRIMES7: seq<nat> := [269, 271, 277, 281, 283, 293, 307, 311]

  const PRIMES: seq<nat> := PRIMES0 + PRIMES1 + PRIMES2 + PRIMES3 + PRIMES4 + PRIMES5 + PRIMES6 + PRIMES7

  lemma CubeRow0(i: nat) returns (n: nat)
    requires i < 8
    ensures CubeRoot(PRIMES0[i], n, SHA256_K0[i])
  {
    match i
    case 0 => n := 0x1428a2f98;
    case 1 => n := 0x171374491;
    case 2 => n := 0x1b5c0fbcf;
    case 3 => n := 0x1e9b5dba5;
    case 4 => n := 0x23956c25b;
    case 5 => n := 0x259f111f1;
    case 6 => n := 0x2923f82a4;
    case _ => n := 0x2ab1c5ed5;
  }

  lemma CubeRow1(i: nat) returns (n: nat)
    requires i < 8
    ensures CubeRoot(PRIMES1[i], n, SHA256_K1[i])
  {
    match i
    case 0 => n := 0x2d807aa98;
    case 1 => n := 0x312835b01;
    case 2 => n := 0x3243185be;
    case 3 => n := 0x3550c7dc3;
    case 4 => n := 0x372be5d74;
    case 5 => n := 0x380deb1fe;
    case 6 => n := 0x39bdc06a7;
    case _ => n := 0x3c19bf174;
  }

  lemma CubeRow2(i: nat) returns (n: nat)
    requires i < 8
    ensures CubeRoot(PRIMES2[i], n, SHA256_K2[i])
  {
    match i
    case 0 => n := 0x3e49b69c1;
    case 1 => n := 0x3efbe4786;
    case 2 => n := 0x40fc19dc6;
    case 3 => n := 0x4240ca1cc;
    case 4 => n := 0x42de92c6f;
    case 5 => n := 0x44a7484aa;
    case 6 => n := 0x45cb0a9dc;
    case _ => n := 0x476f988da;
  }

  lemma CubeRow3(i: nat) returns (n: nat)
    requires i < 8
    ensures CubeRoot(PRIMES3[i], n, SHA256_K3[i])
  {
    match i
    case 0 => n := 0x4983e5152;
    case 1 => n := 0x4a831c66d;
    case 2 => n := 0x4b00327c8;
    case 3 => n := 0x4bf597fc7;
    case 4 => n := 0x4c6e00bf3;
    case 5 => n := 0x4d5a79147;
    case 6 => n := 0x506ca6351;
    case _ => n := 0x514292967;
  }

  lemma CubeRow4(i: nat) returns (n: nat)
    requires i < 8
    ensures CubeRoot(PRIMES4[i], n, SHA256_K4[i])
  {
    match i
    case 0 => n := 0x527b70a85;
    case 1 => n := 0x52e1b2138;
    case 2 => n := 0x54d2c6dfc;
    case 3 => n := 0x553380d13;
    case 4 => n := 0x5650a7354;
    case 5 => n := 0x5766a0abb;
    case 6 => n := 0x581c2c92e;
    case _ => n := 0x592722c85;
  }

  lemma CubeRow5(i: nat) returns (n: nat)
    requires i < 8
    ensures CubeRoot(PRIMES5[i], n, SHA256_K5[i])
  {
    match i
    case 0 => n := 0x5a2bfe8a1;
    case 1 => n := 0x5a81a664b;
    case 2 => n := 0x5c24b8b70;
    case 3 => n := 0x5c76c51a3;
    case 4 => n := 0x5d192e819;
    case 5 => n := 0x5d6990624;
    case 6 => n := 0x5f40e3585;
    case _ => n := 0x6106aa070;
  }

  lemma CubeRow6(i: nat) returns (n: nat)
    requires i < 8
    ensures CubeRoot(PRIMES6[i], n, SHA256_K6[i])
  {
    match i
    case 0 => n := 0x619a4c116;
    case 1 => n := 0x61e376c08;
    case 2 => n := 0x62748774c;
    case 3 => n := 0x634b0bcb5;
    case 4 => n := 0x6391c0cb3;
    case 5 => n := 0x64ed8aa4a;
    case 6 => n := 0x65b9cca4f;
    case _ => n := 0x6682e6ff3;
  }

  lemma CubeRow7(i: nat) returns (n: nat)
    requires i < 8
    ensures CubeRoot(PRIMES7[i], n, SHA256_K7[i])
  {
    match i
    case 0 => n := 0x6748f82ee;
    case 1 => n := 0x678a5636f;
    case 2 => n := 0x684c87814;
    case 3 => n := 0x68cc70208;
    case 4 => n := 0x690befffa;
    case 5 => n := 0x6a4506ceb;
    case 6 => n := 0x6bef9a3f7;
    case _ => n := 0x6c67178f2;
  }

  // Constant j stands in row j / 8, and so does prime j.
  function KRow(r: nat): (k: seq<bv32>)
    ensures |k| == 8
  {
    match r
    case 0 => SHA256_K0
    case 1 => SHA256_K1
    case 2 => SHA256_K2
    case 3 => SHA256_K3
    case 4 => SHA256_K4
    case 5 => SHA256_K5
    case 6 => SHA256_K6
    case _ => SHA256_K7
  }

  function PrimeRow(r: nat): (p: seq<nat>)
    ensures |p| == 8
  {
    match r
    case 0 => PRIMES0
    case 1 => PRIMES1
    case 2 => PRIMES2
    case 3 => PRIMES3
    case 4 => PRIMES4
    case 5 => PRIMES5
    case 6 => PRIMES6
    case _ => PRIMES7
  }

  lemma InRow(r: nat, i: nat)
    requires r < 8 && i < 8
    ensures SHA256_K[8 * r + i] == KRow(r)[i] && PRIMES[8 * r + i] == PrimeRow(r)[i]
  {
    EightParts(SHA256_K0, SHA256_K1, SHA256_K2, SHA256_K3, SHA256_K4, SHA256_K5, SHA256_K6, SHA256_K7, KRow(r), r, i);
    EightParts(PRIMES0, PRIMES1, PRIMES2, PRIMES3, PRIMES4, PRIMES5, PRIMES6, PRIMES7, PrimeRow(r), r, i);
  }

  lemma EightParts<T>(a: seq<T>, b: seq<T>, c: seq<T>, d: seq<T>, e: seq<T>, f: seq<T>, g: seq<T>, h: seq<T>, row: seq<T>, r: nat, i: nat)
    requires |a| == |b| == |c| == |d| == |e| == |f| == |g| == |h| == 8 && r < 8 && i < 8
    requires row == match r case 0 => a case 1 => b case 2 => c case 3 => d case 4 => e case 5 => f case 6 => g case _ => h
    ensures (a + b + c + d + e + f + g + h)[8 * r + i] == row[i]
  {
  }

  lemma CubeRowOf(r: nat, i: nat) returns (n: nat)
    requires r < 8 && i < 8
    ensures CubeRoot(PrimeRow(r)[i], n, KRow(r)[i])
  {
    match r
    case 0 => n := CubeRow0(i);
    case 1 => n := CubeRow1(i);
    case 2 => n := CubeRow2(i);
    case 3 => n := CubeRow3(i);
    case 4 => n := CubeRow4(i);
    case 5 => n := CubeRow5(i);
    case 6 => n := CubeRow6(i);
    case _ => n := CubeRow7(i);
  }

  // Each round constant holds the first thirty-two bits behind the point of the cube root of the
  // prime with its number.
  lemma RoundConstantsAreRoots(j: nat) returns (n: nat)
    requires j < 64
    ensures CubeRoot(PRIMES[j], n, SHA256_K[j])
  {
    InRow(j / 8, j % 8);
    n := CubeRowOf(j / 8, j % 8);
  }

  // The initial hash words, from the square roots of the first eight primes.
  lemma InitialWordsAreRoots()
    ensures SquareRoot(2, 0x16a09e667, SHA256_H0.a)
    ensures SquareRoot(3, 0x1bb67ae85, SHA256_H0.b)
    ensures SquareRoot(5, 0x23c6ef372, SHA256_H0.c)
    ensures SquareRoot(7, 0x2a54ff53a, SHA256_H0.d)
    ensures SquareRoot(11, 0x3510e527f, SHA256_H0.e)
    ensures SquareRoot(13, 0x39b05688c, SHA256_H0.f)
    ensures SquareRoot(17, 0x41f83d9ab, SHA256_H0.g)
    ensures SquareRoot(19, 0x45be0cd19, SHA256_H0.h)
  {
  }
}
