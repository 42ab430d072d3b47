/** The word operations of Application/UefiAvb/libavb/avb_sha256.c: its macros and constants,
    which are those of sections 4.1.2, 4.2.2 and 5.3.3 of FIPS 180-4. */
module Sha256Words {
  import opened Bytes
  import opened ByteOrder
  import opened Sha256Core

  const SHA256_H0: Regs<bv32> := Regs(
    0x6a09e667, 0xbb67ae85, 0x3c6ef372, 0xa54ff53a,
    0x510e527f, 0x9b05688c, 0x1f83d9ab, 0x5be0cd19)

  // Eight round constants to a row.
  const SHA256_K0: seq<bv32> := [0x428a2f98, 0x71374491, 0xb5c0fbcf, 0xe9b5dba5, 0x3956c25b, 0x59f111f1, 0x923f82a4, 0xab1c5ed5]
  const SHA256_K1: seq<bv32> := [0xd807aa98, 0x12835b01, 0x243185be, 0x550c7dc3, 0x72be5d74, 0x80deb1fe, 0x9bdc06a7, 0xc19bf174]
  const SHA256_K2: seq<bv32> := [0xe49b69c1, 0xefbe4786, 0x0fc19dc6, 0x240ca1cc, 0x2de92c6f, 0x4a7484aa, 0x5cb0a9dc, 0x76f988da]
  const SHA256_K3: seq<bv32> := [0x983e5152, 0xa831c66d, 0xb00327c8, 0xbf597fc7, 0xc6e00bf3, 0xd5a79147, 0x06ca6351, 0x14292967]
  const SHA256_K4: seq<bv32> := [0x27b70a85, 0x2e1b2138, 0x4d2c6dfc, 0x53380d13, 0x650a7354, 0x766a0abb, 0x81c2c92e, 0x92722c85]
  const SHA256_K5: seq<bv32> := [0xa2bfe8a1, 0xa81a664b, 0xc24b8b70, 0xc76c51a3, 0xd192e819, 0xd6990624, 0xf40e3585, 0x106aa070]
  const SHA256_K6: seq<bv32> := [0x19a4c116, 0x1e376c08, 0x2748774c, 0x34b0bcb5, 0x391c0cb3, 0x4ed8aa4a, 0x5b9cca4f, 0x682e6ff3]
  const SHA256_K7: seq<bv32> := [0x748f82ee, 0x78a5636f, 0x84c87814, 0x8cc70208, 0x90befffa, 0xa4506ceb, 0xbef9a3f7, 0xc67178f2]

  const SHA256_K: seq<bv32> :=
    SHA256_K0 + SHA256_K1 + SHA256_K2 + SHA256_K3 + SHA256_K4 + SHA256_K5 + SHA256_K6 + SHA256_K7

  function Rotr(x: bv32, n: bv6): bv32
    requires 0 < n < 32
  {
    (x >> n) | (x << (32 - n))
  }

  function F1(x: bv32): bv32 { Rotr(x, 2) ^ Rotr(x, 13) ^ Rotr(x, 22) }

  function F2(x: bv32): bv32 { Rotr(x, 6) ^ Rotr(x, 11) ^ Rotr(x, 25) }

  function F3(x: bv32): bv32 { Rotr(x, 7) ^ Rotr(x, 18) ^ (x >> 3) }

  function F4(x: bv32): bv32 { Rotr(x, 17) ^ Rotr(x, 19) ^ (x >> 10) }

  function Ch(x: bv32, y: bv32, z: bv32): bv32 { (x & y) ^ (!x & z) }

  function Maj(x: bv32, y: bv32, z: bv32): bv32 { (x & y) ^ (x & z) ^ (y & z) }

  // The big-endian word of four bytes.
  function Pack32(a: byte, b: byte, c: byte, d: byte): bv32 {
    d as bv32 | (c as bv32 << 8) | (b as bv32 << 16) | (a as bv32 << 24)
  }

  // SHA256_SCR
  function NextW(w2: bv32, w7: bv32, w15: bv32, w16: bv32): bv32 { F4(w2) + w7 + F3(w15) + w16 }

  function T1(e: bv32, f: bv32, g: bv32, h: bv32, k: bv32, w: bv32): bv32 { h + F2(e) + Ch(e, f, g) + k + w }

  function T2(a: bv32, b: bv32, c: bv32): bv32 { F1(a) + Maj(a, b, c) }

  function Add(x: bv32, y: bv32): bv32 { x + y }

  function RoundConstant(j: nat): bv32 { if j < |SHA256_K| then SHA256_K[j] else 0 }

  function Unpack32(w: bv32): Quad { BeWord(w) }

  function Sha256Ops(): WordOps<bv32> {
    WordOps(SHA256_H0, RoundConstant, Pack32, Unpack32, NextW, T1, T2, Add)
  }

  // Packing is the inverse of unpacking: both are big-endian.
  lemma PackUnpack(w: bv32)
    ensures Pack32(BeWord(w)[0], BeWord(w)[1], BeWord(w)[2], BeWord(w)[3]) == w
  {
  }
}
