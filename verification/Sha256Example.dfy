/** The published digest of the message "abc" (the first example that NIST gives for SHA-256), which
    ties the round, the message schedule and the final addition to numbers outside this model. */
module Sha256Example {
  import opened Bytes
  import opened ByteOrder
  import opened Sequences
  import opened Sha256
  import opened Sha256Core
  import opened Sha256Padding
  import opened Sha256Rows
  import opened Sha256Words

  // ----- the padded message, its schedule, and the registers after every eight rounds

  const ABC_W0: seq<bv32> := [0x61626380, 0x00000000, 0x00000000, 0x00000000, 0x00000000, 0x00000000, 0x00000000, 0x00000000]
  const ABC_W1: seq<bv32> := [0x00000000, 0x00000000, 0x00000000, 0x00000000, 0x00000000, 0x00000000, 0x00000000, 0x00000018]
  const ABC_W2: seq<bv32> := [0x61626380, 0x000f0000, 0x7da86405, 0x600003c6, 0x3e9d7b78, 0x0183fc00, 0x12dcbfdb, 0xe2e2c38e]
  const ABC_W3: seq<bv32> := [0xc8215c1a, 0xb73679a2, 0xe5bc3909, 0x32663c5b, 0x9d209d67, 0xec8726cb, 0x702138a4, 0xd3b7973b]
  const ABC_W4: seq<bv32> := [0x93f5997f, 0x3b68ba73, 0xaff4ffc1, 0xf10a5c62, 0x0a8b3996, 0x72af830a, 0x9409e33e, 0x24641522]
  const ABC_W5: seq<bv32> := [0x9f47bf94, 0xf0a64f5a, 0x3e246a79, 0x27333ba3, 0x0c4763f2, 0x840abf27, 0x7a290d5d, 0x065c43da]
  const ABC_W6: seq<bv32> := [0xfb3e89cb, 0xcc7617db, 0xb9e66c34, 0xa9993667, 0x84badedd, 0xc21462bc, 0x1487472c, 0xb20f7a99]
  const ABC_W7: seq<bv32> := [0xef57b9cd, 0xebe6b238, 0x9fe3095e, 0x78bc8d4b, 0xa43fcf15, 0x668b2ff8, 0xeeaba2cc, 0x12b1edeb]

  const ABC_S1: Regs<bv32> := Regs(0x85a07b5f, 0xe5030380, 0x2b4209f5, 0x04409a6a, 0x0c657a79, 0x9b27a401, 0x714260ad, 0x43ada245)
  const ABC_S2: Regs<bv32> := Regs(0xb0fa238e, 0xc0645fde, 0xd932eb16, 0x87912990, 0x07590dcd, 0x0b92f20c, 0x745a48de, 0x1e578218)
  const ABC_S3: Regs<bv32> := Regs(0xc5d53d8d, 0xa7a3623f, 0xc2606d6d, 0x9dc68b63, 0xaa47c347, 0x49f5114a, 0xe1257970, 0x8ada8930)
  const ABC_S4: Regs<bv32> := Regs(0x73b33bf5, 0xea992a22, 0xa0060b30, 0x363482c9, 0xba591112, 0x0109ab3a, 0xade79437, 0x6112a3b7)
  const ABC_S5: Regs<bv32> := Regs(0x79ea687a, 0x6dc57a8a, 0x34df1604, 0x41a65cb1, 0x1efbc0a0, 0xf0781bc8, 0xa507a53d, 0x0772a26b)
  const ABC_S6: Regs<bv32> := Regs(0x4172328d, 0xa14c14b0, 0x72ab4b91, 0x26628815, 0xfecf0bc6, 0xd57b94a9, 0xb7755da1, 0xa80f11f0)
  const ABC_S7: Regs<bv32> := Regs(0x38cc9913, 0x3ec45cdb, 0xf5702fdb, 0x101fd28f, 0x54cb266b, 0xe50e1b4f, 0x9f4787c3, 0x529e7d00)
  const ABC_S8: Regs<bv32> := Regs(0x506e3058, 0xd39a2165, 0x04d24d6c, 0xb85e2ce9, 0x5ef50f24, 0xfb121210, 0x948d25b6, 0x961f4894)

  lemma Words2() ensures EightWords(Sha256Ops(), ABC_W0, ABC_W1) == ABC_W2 {}
  lemma Words3() ensures EightWords(Sha256Ops(), ABC_W1, ABC_W2) == ABC_W3 {}
  lemma Words4() ensures EightWords(Sha256Ops(), ABC_W2, ABC_W3) == ABC_W4 {}
  lemma Words5() ensures EightWords(Sha256Ops(), ABC_W3, ABC_W4) == ABC_W5 {}
  lemma Words6() ensures EightWords(Sha256Ops(), ABC_W4, ABC_W5) == ABC_W6 {}
  lemma Words7() ensures EightWords(Sha256Ops(), ABC_W5, ABC_W6) == ABC_W7 {}

  lemma Rounds0() ensures EightRounds(Sha256Ops(), SHA256_H0, SHA256_K0, ABC_W0) == ABC_S1 {}
  lemma Rounds1() ensures EightRounds(Sha256Ops(), ABC_S1, SHA256_K1, ABC_W1) == ABC_S2 {}
  lemma Rounds2() ensures EightRounds(Sha256Ops(), ABC_S2, SHA256_K2, ABC_W2) == ABC_S3 {}
  lemma Rounds3() ensures EightRounds(Sha256Ops(), ABC_S3, SHA256_K3, ABC_W3) == ABC_S4 {}
  lemma Rounds4() ensures EightRounds(Sha256Ops(), ABC_S4, SHA256_K4, ABC_W4) == ABC_S5 {}
  lemma Rounds5() ensures EightRounds(Sha256Ops(), ABC_S5, SHA256_K5, ABC_W5) == ABC_S6 {}
  lemma Rounds6() ensures EightRounds(Sha256Ops(), ABC_S6, SHA256_K6, ABC_W6) == ABC_S7 {}
  lemma Rounds7() ensures EightRounds(Sha256Ops(), ABC_S7, SHA256_K7, ABC_W7) == ABC_S8 {}

  lemma Keys0() ensures KeysFrom(Sha256Ops(), 0, SHA256_K0) {}
  lemma Keys1() ensures KeysFrom(Sha256Ops(), 8, SHA256_K1) {}
  lemma Keys2() ensures KeysFrom(Sha256Ops(), 16, SHA256_K2) {}
  lemma Keys3() ensures KeysFrom(Sha256Ops(), 24, SHA256_K3) {}
  lemma Keys4() ensures KeysFrom(Sha256Ops(), 32, SHA256_K4) {}
  lemma Keys5() ensures KeysFrom(Sha256Ops(), 40, SHA256_K5) {}
  lemma Keys6() ensures KeysFrom(Sha256Ops(), 48, SHA256_K6) {}
  lemma Keys7() ensures KeysFrom(Sha256Ops(), 56, SHA256_K7) {}

  lemma LastSum() ensures AddRegs(Sha256Ops(), SHA256_H0, ABC_S8) == ABC_DIGEST {}

  const ABC_DIGEST: Regs<bv32> := Regs(0xba7816bf, 0x8f01cfea, 0x414140de, 0x5dae2223, 0xb00361a3, 0x96177a9c, 0xb410ff61, 0xf20015ad)

  const ABC_BLOCK: Block := [0x61, 0x62, 0x63] + [0x80] + Zeros(59) + [24]

  lemma BlockRows()
    ensures BlockWords(Sha256Ops(), ABC_BLOCK) == ABC_W0 + ABC_W1
  {
  }

  const ABC_ROWS: seq<seq<bv32>> := [ABC_W0, ABC_W1, ABC_W2, ABC_W3, ABC_W4, ABC_W5, ABC_W6, ABC_W7]

  lemma AbcWords()
    ensures WordRows(Sha256Ops(), ABC_ROWS)
  {
    Words2(); Words3(); Words4(); Words5(); Words6(); Words7();
    WordsFit(Sha256Ops(), ABC_W0, ABC_W1, ABC_W2, ABC_W3, ABC_W4, ABC_W5, ABC_W6, ABC_W7);
  }

  lemma After1(w: seq<bv32>)
    requires w == Joined(ABC_ROWS, 8)
    ensures Rounds(Sha256Ops(), SHA256_H0, w, 8) == ABC_S1
  {
    RowOfJoined(ABC_ROWS, 0, 8);
    Rounds0();
    Keys0();
    RoundsByEight(Sha256Ops(), SHA256_H0, w, 0, SHA256_H0, SHA256_K0, ABC_W0);
  }

  lemma After2(w: seq<bv32>)
    requires w == Joined(ABC_ROWS, 8)
    ensures Rounds(Sha256Ops(), SHA256_H0, w, 16) == ABC_S2
  {
    After1(w);
    RowOfJoined(ABC_ROWS, 1, 8);
    Rounds1();
    Keys1();
    RoundsByEight(Sha256Ops(), SHA256_H0, w, 8, ABC_S1, SHA256_K1, ABC_W1);
  }

  lemma After3(w: seq<bv32>)
    requires w == Joined(ABC_ROWS, 8)
    ensures Rounds(Sha256Ops(), SHA256_H0, w, 24) == ABC_S3
  {
    After2(w);
    RowOfJoined(ABC_ROWS, 2, 8);
    Rounds2();
    Keys2();
    RoundsByEight(Sha256Ops(), SHA256_H0, w, 16, ABC_S2, SHA256_K2, ABC_W2);
  }

  lemma After4(w: seq<bv32>)
    requires w == Joined(ABC_ROWS, 8)
    ensures Rounds(Sha256Ops(), SHA256_H0, w, 32) == ABC_S4
  {
    After3(w);
    RowOfJoined(ABC_ROWS, 3, 8);
    Rounds3();
    Keys3();
    RoundsByEight(Sha256Ops(), SHA256_H0, w, 24, ABC_S3, SHA256_K3, ABC_W3);
  }

  lemma After5(w: seq<bv32>)
    requires w == Joined(ABC_ROWS, 8)
    ensures Rounds(Sha256Ops(), SHA256_H0, w, 40) == ABC_S5
  {
    After4(w);
    RowOfJoined(ABC_ROWS, 4, 8);
    Rounds4();
    Keys4();
    RoundsByEight(Sha256Ops(), SHA256_H0, w, 32, ABC_S4, SHA256_K4, ABC_W4);
  }

  lemma After6(w: seq<bv32>)
    requires w == Joined(ABC_ROWS, 8)
    ensures Rounds(Sha256Ops(), SHA256_H0, w, 48) == ABC_S6
  {
    After5(w);
    RowOfJoined(ABC_ROWS, 5, 8);
    Rounds5();
    Keys5();
    RoundsByEight(Sha256Ops(), SHA256_H0, w, 40, ABC_S5, SHA256_K5, ABC_W5);
  }

  lemma After7(w: seq<bv32>)
    requires w == Joined(ABC_ROWS, 8)
    ensures Rounds(Sha256Ops(), SHA256_H0, w, 56) == ABC_S7
  {
    After6(w);
    RowOfJoined(ABC_ROWS, 6, 8);
    Rounds6();
    Keys6();
    RoundsByEight(Sha256Ops(), SHA256_H0, w, 48, ABC_S6, SHA256_K6, ABC_W6);
  }

  lemma After8(w: seq<bv32>)
    requires w == Joined(ABC_ROWS, 8)
    ensures Rounds(Sha256Ops(), SHA256_H0, w, 64) == ABC_S8
  {
    After7(w);
    RowOfJoined(ABC_ROWS, 7, 8);
    Rounds7();
    Keys7();
    RoundsByEight(Sha256Ops(), SHA256_H0, w, 56, ABC_S7, SHA256_K7, ABC_W7);
  }

  lemma AbcCompressed()
    ensures Compress(Sha256Ops(), SHA256_H0, ABC_BLOCK) == ABC_DIGEST
  {
    BlockRows();
    AbcWords();
    After8(Joined(ABC_ROWS, 8));
    CompressRows(Sha256Ops(), SHA256_H0, ABC_BLOCK, ABC_ROWS, ABC_S8);
    LastSum();
  }

  // ----- the digest

  // The length in bits of a message shorter than 32 bytes.
  lemma ShortLength(x: byte)
    ensures BeBytes(x as int, 8) == Zeros(7) + [x]
  {
    BeBytesZero(7);
    ByteOfInt(x);
    ByteOfInt(LowByte(x as int));
  }

  lemma AbcPadded()
    ensures FipsPadded([0x61, 0x62, 0x63]) == ABC_BLOCK
  {
    ShortLength(24);
    PaddedParts([0x61, 0x62, 0x63], 24);
  }

  lemma PaddedParts(m: seq<byte>, x: byte)
    requires |m| == 3 && BeBytes(8 * |m|, 8) == Zeros(7) + [x]
    ensures FipsPadded(m) == m + [0x80] + Zeros(59) + [x]
  {
    ZeroCountFrom(3, 0, 3);
    ZerosJoin(52, 7);
    PartsJoin(m, [0x80], Zeros(52), Zeros(7), [x]);
  }

  lemma ZerosJoin(a: nat, b: nat)
    ensures Zeros(a) + Zeros(b) == Zeros(a + b)
  {
  }

  lemma PartsJoin(a: seq<byte>, b: seq<byte>, c: seq<byte>, d: seq<byte>, e: seq<byte>)
    ensures a + (b + c + (d + e)) == a + b + (c + d) + e
  {
  }

  lemma DigestQuads()
    ensures BeWord(0xba7816bf) == [0xba, 0x78, 0x16, 0xbf] && BeWord(0x8f01cfea) == [0x8f, 0x01, 0xcf, 0xea]
            && BeWord(0x414140de) == [0x41, 0x41, 0x40, 0xde] && BeWord(0x5dae2223) == [0x5d, 0xae, 0x22, 0x23]
            && BeWord(0xb00361a3) == [0xb0, 0x03, 0x61, 0xa3] && BeWord(0x96177a9c) == [0x96, 0x17, 0x7a, 0x9c]
            && BeWord(0xb410ff61) == [0xb4, 0x10, 0xff, 0x61] && BeWord(0xf20015ad) == [0xf2, 0x00, 0x15, 0xad]
  {
  }

  lemma AbcDigest()
    ensures Hash(Sha256Ops(), [0x61, 0x62, 0x63]) ==
              [0xba, 0x78, 0x16, 0xbf] + [0x8f, 0x01, 0xcf, 0xea] + [0x41, 0x41, 0x40, 0xde] + [0x5d, 0xae, 0x22, 0x23]
              + [0xb0, 0x03, 0x61, 0xa3] + [0x96, 0x17, 0x7a, 0x9c] + [0xb4, 0x10, 0xff, 0x61] + [0xf2, 0x00, 0x15, 0xad]
  {
    AbcPadded();
    AbcCompressed();
    OneBlockDigest(Sha256Ops(), [0x61, 0x62, 0x63], ABC_BLOCK, ABC_DIGEST);
    DigestQuads();
  }
}
