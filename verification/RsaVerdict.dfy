/** The verdict of Application/UefiAvb/libavb/avb_rsa.c read off the bytes of the key: which key
    sizes there are, and what is accepted with a key of each. */
module RsaVerdict {
  import opened Bytes
  import opened ByteOrder
  import opened ModularArithmetic
  import opened Montgomery
  import opened Rsa

  // ----- powers of two

  lemma {:induction false} PowOfPow(b: int, i: nat, j: nat)
    ensures Pow(Pow(b, i), j) == Pow(b, i * j)
  {
    if j != 0 {
      PowOfPow(b, i, j - 1);
      PowAdd(b, i, i * (j - 1));
      assert i + i * (j - 1) == i * j;
    }
  }

  lemma RadixBits(k: nat)
    ensures Radix(k) == Pow(2, 32 * k) && Radix(k) * Radix(k) == Pow(2, 64 * k)
  {
    PowBase();
    PowOfPow(2, 32, k);
    PowAdd(2, 32 * k, 32 * k);
  }

  // ----- the blob of a key

  // What the premise about the stored numbers says in terms of module Montgomery.
  lemma StoredNumbersConsistent(n: nat, n0inv: u32, rr: nat, k: nat)
    requires n < Pow(2, 32 * k) <= 2 * n && rr < Pow(2, 32 * k)
    requires (n * n0inv + 1) % 0x1_0000_0000 == 0 && rr % n == Pow(2, 64 * k) % n
    ensures Consistent(n, n0inv, rr, k)
  {
    RadixBits(k);
    PowPositive(2, 32 * k);
    assert n0inv * n == n * n0inv;
    var q := (n * n0inv + 1) / BASE;
    assert n0inv * n == BASE * (q - 1) + (BASE - 1);
    DivModUnique(n0inv * n, BASE, q - 1, BASE - 1);
  }

  // A number of k words is below 2 to the power of its bits.
  lemma WordsBound(s: seq<byte>, k: nat)
    requires |s| == 4 * k
    ensures BeVal(s) < Pow(2, 32 * k)
  {
    BeValBound(s);
    assert Pow(2, 4) == 16 && Pow(2, 3) == 8;
    PowAdd(2, 4, 4);
    PowOfPow(2, 8, 4 * k);
  }

  // The parts of a blob of k words.
  lemma BlobNumbers(key: seq<byte>, k: nat)
    requires k == 64 || k == 128 || k == 256
    requires |key| == 8 + 8 * k && BeVal(key[..4]) == 32 * k
    ensures KeyLengthsOk(key, |key|)
    ensures BlobKey(key).k == k && BlobKey(key).n0inv == BeVal(key[4..8])
    ensures BlobKey(key).n == BeVal(key[8..8 + 4 * k]) && BlobKey(key).rr == BeVal(key[8 + 4 * k..])
  {
    assert key[0..4] == key[..4];
  }

  // The premise of the theorem on k words, with the two powers given as numbers.
  lemma BlobConsistent(key: seq<byte>, k: nat, n: nat, n0inv: u32, rr: nat, r: nat, square: nat)
    requires r == Pow(2, 32 * k) && square == Pow(2, 64 * k) && n < r && rr < r
    requires r <= 2 * n && (n * n0inv + 1) % 0x1_0000_0000 == 0 && rr % n == square % n
    requires |key| >= HEADER_SIZE && KeyLengthsOk(key, |key|) && BlobKey(key) == KeyNumbers(n, n0inv, rr, k)
    ensures BlobKey(key).IsConsistent()
  {
    StoredNumbersConsistent(n, n0inv, rr, k);
  }

  // With a key of 2048, 4096 or 8192 bits whose stored numbers fit together, a signature is
  // accepted exactly if it has as many bytes as the modulus and its 65537-th power modulo the
  // modulus, written in that many bytes, is the padding followed by the hash.
  lemma AcceptsExactly(key: seq<byte>, sig: seq<byte>, hash: seq<byte>, padding: seq<byte>, bits: nat, bytes: nat,
                       n: nat, n0inv: u32, rr: nat, r: nat, square: nat)
    requires bits == 2048 || bits == 4096 || bits == 8192
    requires bits == 8 * bytes && |key| == 8 + 2 * bytes && BeVal(key[..4]) == bits
    requires n0inv == BeVal(key[4..8]) && n == BeVal(key[8..8 + bytes]) && rr == BeVal(key[8 + bytes..])
    requires r == Pow(2, bits) && square == Pow(2, 2 * bits)
    requires r <= 2 * n && n != 0 && (n * n0inv + 1) % 0x1_0000_0000 == 0 && rr % n == square % n
    ensures Accepts(key, sig, hash, padding) <==>
              |sig| == bytes && BeBytes(Pow(BeVal(sig), 65537) % n, |sig|) == padding + hash
  {
    var k := bits / 32;
    BlobNumbers(key, k);
    WordsBound(key[8..8 + 4 * k], k);
    WordsBound(key[8 + 4 * k..], k);
    BlobConsistent(key, k, n, n0inv, rr, r, square);
    AcceptsMeaning(key, sig, hash, padding);
  }

  // No other header and no other length is accepted, with any signature.
  lemma OtherKeysRefused(key: seq<byte>, sig: seq<byte>, hash: seq<byte>, padding: seq<byte>)
    requires |key| >= 8
    requires var bits := BeVal(key[..4]);
             (bits != 2048 && bits != 4096 && bits != 8192) || |key| != 8 + bits / 4
    ensures !Accepts(key, sig, hash, padding)
  {
    assert key[0..4] == key[..4];
  }

  // ----- such keys exist for every modulus

  lemma {:induction false} NegatedInverse(n: nat, j: nat) returns (x: nat)
    requires n % 2 == 1
    ensures x < Pow(2, j) && (x * n + 1) % Pow(2, j) == 0
  {
    if j == 0 {
      x := 0;
    } else {
      var y := NegatedInverse(n, j - 1);
      x := OneMoreBit(n, Pow(2, j - 1), y);
    }
  }

  // An inverse modulo p, or that inverse plus p, is one modulo 2 * p.
  lemma OneMoreBit(n: nat, p: nat, y: nat) returns (x: nat)
    requires n % 2 == 1 && p > 0 && y < p && (y * n + 1) % p == 0
    ensures x < 2 * p && (x * n + 1) % (2 * p) == 0
  {
    var q := (y * n + 1) / p;
    assert y * n + 1 == p * q;
    if q % 2 == 0 {
      x := y;
      EvenMultiple(x * n + 1, p, q, q / 2);
    } else {
      x := y + p;
      Distribute(n, p, y, q);
      EvenMultiple(x * n + 1, p, q + n, (q + n) / 2);
    }
  }

  lemma Distribute(n: nat, p: nat, y: nat, q: nat)
    requires y * n + 1 == p * q
    ensures (y + p) * n + 1 == p * (q + n)
  {
    assert (y + p) * n == y * n + p * n;
    assert p * (q + n) == p * q + p * n;
  }

  lemma EvenMultiple(v: nat, p: nat, q: nat, half: nat)
    requires p > 0 && v == p * q && q == 2 * half
    ensures v % (2 * p) == 0
  {
    MulAssociative(p, 2, half);
    DivModUnique(v, 2 * p, half, 0);
  }

  // Every odd modulus with its top bit set has an inverse and a square to be stored with it.
  lemma KeyExists(n: nat, r: nat, square: nat) returns (n0inv: u32, rr: nat)
    requires n % 2 == 1 && n < r <= 2 * n
    ensures rr < r && (n * n0inv + 1) % 0x1_0000_0000 == 0 && rr % n == square % n
  {
    var x := NegatedInverse(n, 32);
    PowBase();
    n0inv := x;
    CommutedInverse(n, n0inv);
    rr := square % n;
    ReducedTwice(square, n);
  }

  lemma CommutedInverse(n: nat, x: nat)
    requires (x * n + 1) % BASE == 0
    ensures (n * x + 1) % BASE == 0
  {
    assert x * n == n * x;
  }

  lemma ReducedTwice(x: nat, n: nat)
    requires n > 0
    ensures x % n % n == x % n < n
  {
    DivModUnique(x % n, n, 0, x % n);
  }

  lemma PowBase()
    ensures Pow(2, 32) == BASE
  {
    assert Pow(2, 4) == 16 && Pow(2, 3) == 8;
    PowAdd(2, 4, 4);
    PowAdd(2, 8, 8);
    PowAdd(2, 16, 16);
  }
}
