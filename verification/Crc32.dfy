/** Application/UefiAvb/libavb/avb_crc32.c: the table, the byte-wise loop, and the bit-wise
    cyclic redundancy check of section 8 of RFC 1952 that they implement. */
module Crc32 {
  import opened Bytes

  const POLYNOMIAL: bv32 := 0xEDB88320

  // ----- the reference: one bit at a time, reflected

  function BitStep(c: bv32): bv32 {
    if c & 1 == 1 then (c >> 1) ^ POLYNOMIAL else c >> 1
  }

  function EightSteps(c: bv32): bv32 {
    BitStep(BitStep(BitStep(BitStep(BitStep(BitStep(BitStep(BitStep(c))))))))
  }

  // A byte enters the low end of the register, then eight bits are stepped.
  function StepOf(e8: bv32 -> bv32): (bv32, byte) -> bv32 {
    (c, p) => e8(Enter(c, p))
  }

  function Enter(c: bv32, p: byte): bv32 { c ^ p as bv32 }

  // The register after a byte string, starting from register c. The lemmas about whole
  // strings leave the step unknown, so that no bit-level search is started.
  function Register(step: (bv32, byte) -> bv32, c: bv32, s: seq<byte>): bv32 {
    if s == [] then c else step(Register(step, c, s[..|s| - 1]), s[|s| - 1])
  }

  function Invert(c: bv32): bv32 { c ^ 0xFFFF_FFFF }

  function Crc(step: (bv32, byte) -> bv32, crcIn: bv32, s: seq<byte>): bv32 {
    Invert(Register(step, Invert(crcIn), s))
  }

  // CRC-32 of section 8 of RFC 1952, continued from a previous check value.
  function CheckValue(crcIn: bv32, s: seq<byte>): bv32 {
    Crc(StepOf(EightSteps), crcIn, s)
  }

  // ----- linearity of the bit step

  lemma ParityOfXor(x: bv32, y: bv32)
    ensures ((x ^ y) & 1 == 1) <==> ((x & 1 == 1) != (y & 1 == 1))
  {
  }

  lemma ShiftOfXor(x: bv32, y: bv32)
    ensures (x ^ y) >> 1 == (x >> 1) ^ (y >> 1)
  {
  }

  lemma XorMove(a: bv32, b: bv32, p: bv32)
    ensures (a ^ p) ^ b == (a ^ b) ^ p && a ^ (b ^ p) == (a ^ b) ^ p && (a ^ p) ^ (b ^ p) == a ^ b
  {
  }

  lemma BitStepLinear(x: bv32, y: bv32)
    ensures BitStep(x ^ y) == BitStep(x) ^ BitStep(y)
  {
    ParityOfXor(x, y);
    ShiftOfXor(x, y);
    XorMove(x >> 1, y >> 1, POLYNOMIAL);
  }

  // What holds of one application of f holds of eight.
  lemma EightTimes<T(!new)>(f: T -> T, g: (T, T) -> T, x: T, y: T)
    requires forall a, b :: f(g(a, b)) == g(f(a), f(b))
    ensures f(f(f(f(f(f(f(f(g(x, y))))))))) == g(f(f(f(f(f(f(f(f(x)))))))), f(f(f(f(f(f(f(f(y)))))))))
  {
  }

  ghost predicate IsXor(g: (bv32, bv32) -> bv32) {
    forall a, b :: g(a, b) == a ^ b
  }

  // The exclusive-or is passed as an unknown g, so that no bit-level search is started.
  lemma EightStepsLinear(g: (bv32, bv32) -> bv32, x: bv32, y: bv32)
    requires IsXor(g)
    ensures EightSteps(g(x, y)) == g(EightSteps(x), EightSteps(y))
  {
    forall a, b ensures BitStep(g(a, b)) == g(BitStep(a), BitStep(b)) {
      BitStepLinear(a, b);
    }
    EightTimes(BitStep, g, x, y);
  }

  lemma ShiftZeros(h: bv32)
    requires h & 0xFF == 0
    ensures EightSteps(h) == h >> 8
  {
  }

  lemma SplitWord(z: bv32)
    ensures (z & 0xFF) ^ (z & 0xFFFF_FF00) == z
    ensures (z & 0xFFFF_FF00) & 0xFF == 0 && (z & 0xFFFF_FF00) >> 8 == z >> 8
  {
  }

  // Eight steps of a register depend on its low byte and shift the rest.
  lemma LowByteDecides(g: (bv32, bv32) -> bv32, z: bv32, l: bv32, h: bv32, s: bv32)
    requires IsXor(g) && l == z & 0xFF && h == z & 0xFFFF_FF00 && s == z >> 8
    ensures EightSteps(z) == g(EightSteps(l), s)
  {
    SplitWord(z);
    ShiftZeros(h);
    LowByteOf(g, z, l, h, s);
  }

  lemma LowByteOf(g: (bv32, bv32) -> bv32, z: bv32, l: bv32, h: bv32, s: bv32)
    requires IsXor(g) && g(l, h) == z && EightSteps(h) == s
    ensures EightSteps(z) == g(EightSteps(l), s)
  {
    EightStepsLinear(g, l, h);
  }

  // ----- the table, sixteen entries to a row

  const ROW0: seq<bv32> := [
    0x00000000, 0x77073096, 0xee0e612c, 0x990951ba, 0x076dc419, 0x706af48f, 0xe963a535, 0x9e6495a3,
    0x0edb8832, 0x79dcb8a4, 0xe0d5e91e, 0x97d2d988, 0x09b64c2b, 0x7eb17cbd, 0xe7b82d07, 0x90bf1d91]
  const ROW1: seq<bv32> := [
    0x1db71064, 0x6ab020f2, 0xf3b97148, 0x84be41de, 0x1adad47d, 0x6ddde4eb, 0xf4d4b551, 0x83d385c7,
    0x136c9856, 0x646ba8c0, 0xfd62f97a, 0x8a65c9ec, 0x14015c4f, 0x63066cd9, 0xfa0f3d63, 0x8d080df5]
  const ROW2: seq<bv32> := [
    0x3b6e20c8, 0x4c69105e, 0xd56041e4, 0xa2677172, 0x3c03e4d1, 0x4b04d447, 0xd20d85fd, 0xa50ab56b,
    0x35b5a8fa, 0x42b2986c, 0xdbbbc9d6, 0xacbcf940, 0x32d86ce3, 0x45df5c75, 0xdcd60dcf, 0xabd13d59]
  const ROW3: seq<bv32> := [
    0x26d930ac, 0x51de003a, 0xc8d75180, 0xbfd06116, 0x21b4f4b5, 0x56b3c423, 0xcfba9599, 0xb8bda50f,
    0x2802b89e, 0x5f058808, 0xc60cd9b2, 0xb10be924, 0x2f6f7c87, 0x58684c11, 0xc1611dab, 0xb6662d3d]
  const ROW4: seq<bv32> := [
    0x76dc4190, 0x01db7106, 0x98d220bc, 0xefd5102a, 0x71b18589, 0x06b6b51f, 0x9fbfe4a5, 0xe8b8d433,
    0x7807c9a2, 0x0f00f934, 0x9609a88e, 0xe10e9818, 0x7f6a0dbb, 0x086d3d2d, 0x91646c97, 0xe6635c01]
  const ROW5: seq<bv32> := [
    0x6b6b51f4, 0x1c6c6162, 0x856530d8, 0xf262004e, 0x6c0695ed, 0x1b01a57b, 0x8208f4c1, 0xf50fc457,
    0x65b0d9c6, 0x12b7e950, 0x8bbeb8ea, 0xfcb9887c, 0x62dd1ddf, 0x15da2d49, 0x8cd37cf3, 0xfbd44c65]
  const ROW6: seq<bv32> := [
    0x4db26158, 0x3ab551ce, 0xa3bc0074, 0xd4bb30e2, 0x4adfa541, 0x3dd895d7, 0xa4d1c46d, 0xd3d6f4fb,
    0x4369e96a, 0x346ed9fc, 0xad678846, 0xda60b8d0, 0x44042d73, 0x33031de5, 0xaa0a4c5f, 0xdd0d7cc9]
  const ROW7: seq<bv32> := [
    0x5005713c, 0x270241aa, 0xbe0b1010, 0xc90c2086, 0x5768b525, 0x206f85b3, 0xb966d409, 0xce61e49f,
    0x5edef90e, 0x29d9c998, 0xb0d09822, 0xc7d7a8b4, 0x59b33d17, 0x2eb40d81, 0xb7bd5c3b, 0xc0ba6cad]
  const ROW8: seq<bv32> := [
    0xedb88320, 0x9abfb3b6, 0x03b6e20c, 0x74b1d29a, 0xead54739, 0x9dd277af, 0x04db2615, 0x73dc1683,
    0xe3630b12, 0x94643b84, 0x0d6d6a3e, 0x7a6a5aa8, 0xe40ecf0b, 0x9309ff9d, 0x0a00ae27, 0x7d079eb1]
  const ROW9: seq<bv32> := [
    0xf00f9344, 0x8708a3d2, 0x1e01f268, 0x6906c2fe, 0xf762575d, 0x806567cb, 0x196c3671, 0x6e6b06e7,
    0xfed41b76, 0x89d32be0, 0x10da7a5a, 0x67dd4acc, 0xf9b9df6f, 0x8ebeeff9, 0x17b7be43, 0x60b08ed5]
  const ROWA: seq<bv32> := [
    0xd6d6a3e8, 0xa1d1937e, 0x38d8c2c4, 0x4fdff252, 0xd1bb67f1, 0xa6bc5767, 0x3fb506dd, 0x48b2364b,
    0xd80d2bda, 0xaf0a1b4c, 0x36034af6, 0x41047a60, 0xdf60efc3, 0xa867df55, 0x316e8eef, 0x4669be79]
  const ROWB: seq<bv32> := [
    0xcb61b38c, 0xbc66831a, 0x256fd2a0, 0x5268e236, 0xcc0c7795, 0xbb0b4703, 0x220216b9, 0x5505262f,
    0xc5ba3bbe, 0xb2bd0b28, 0x2bb45a92, 0x5cb36a04, 0xc2d7ffa7, 0xb5d0cf31, 0x2cd99e8b, 0x5bdeae1d]
  const ROWC: seq<bv32> := [
    0x9b64c2b0, 0xec63f226, 0x756aa39c, 0x026d930a, 0x9c0906a9, 0xeb0e363f, 0x72076785, 0x05005713,
    0x95bf4a82, 0xe2b87a14, 0x7bb12bae, 0x0cb61b38, 0x92d28e9b, 0xe5d5be0d, 0x7cdcefb7, 0x0bdbdf21]
  const ROWD: seq<bv32> := [
    0x86d3d2d4, 0xf1d4e242, 0x68ddb3f8, 0x1fda836e, 0x81be16cd, 0xf6b9265b, 0x6fb077e1, 0x18b74777,
    0x88085ae6, 0xff0f6a70, 0x66063bca, 0x11010b5c, 0x8f659eff, 0xf862ae69, 0x616bffd3, 0x166ccf45]
  const ROWE: seq<bv32> := [
    0xa00ae278, 0xd70dd2ee, 0x4e048354, 0x3903b3c2, 0xa7672661, 0xd06016f7, 0x4969474d, 0x3e6e77db,
    0xaed16a4a, 0xd9d65adc, 0x40df0b66, 0x37d83bf0, 0xa9bcae53, 0xdebb9ec5, 0x47b2cf7f, 0x30b5ffe9]
  const ROWF: seq<bv32> := [
    0xbdbdf21c, 0xcabac28a, 0x53b39330, 0x24b4a3a6, 0xbad03605, 0xcdd70693, 0x54de5729, 0x23d967bf,
    0xb3667a2e, 0xc4614ab8, 0x5d681b02, 0x2a6f2b94, 0xb40bbe37, 0xc30c8ea1, 0x5a05df1b, 0x2d02ef8d]

  function Table(b: byte): bv32 {
    var i := ((b & 0xF) as bv4) as int;
    match b >> 4
    case 0 => ROW0[i]
    case 1 => ROW1[i]
    case 2 => ROW2[i]
    case 3 => ROW3[i]
    case 4 => ROW4[i]
    case 5 => ROW5[i]
    case 6 => ROW6[i]
    case 7 => ROW7[i]
    case 8 => ROW8[i]
    case 9 => ROW9[i]
    case 10 => ROWA[i]
    case 11 => ROWB[i]
    case 12 => ROWC[i]
    case 13 => ROWD[i]
    case 14 => ROWE[i]
    case _ => ROWF[i]
  }

  lemma Row0(i: bv4) ensures ROW0[i as int] == EightSteps(0x00 | i as bv32) {}
  lemma Row1(i: bv4) ensures ROW1[i as int] == EightSteps(0x10 | i as bv32) {}
  lemma Row2(i: bv4) ensures ROW2[i as int] == EightSteps(0x20 | i as bv32) {}
  lemma Row3(i: bv4) ensures ROW3[i as int] == EightSteps(0x30 | i as bv32) {}
  lemma Row4(i: bv4) ensures ROW4[i as int] == EightSteps(0x40 | i as bv32) {}
  lemma Row5(i: bv4) ensures ROW5[i as int] == EightSteps(0x50 | i as bv32) {}
  lemma Row6(i: bv4) ensures ROW6[i as int] == EightSteps(0x60 | i as bv32) {}
  lemma Row7(i: bv4) ensures ROW7[i as int] == EightSteps(0x70 | i as bv32) {}
  lemma Row8(i: bv4) ensures ROW8[i as int] == EightSteps(0x80 | i as bv32) {}
  lemma Row9(i: bv4) ensures ROW9[i as int] == EightSteps(0x90 | i as bv32) {}
  lemma RowA(i: bv4) ensures ROWA[i as int] == EightSteps(0xA0 | i as bv32) {}
  lemma RowB(i: bv4) ensures ROWB[i as int] == EightSteps(0xB0 | i as bv32) {}
  lemma RowC(i: bv4) ensures ROWC[i as int] == EightSteps(0xC0 | i as bv32) {}
  lemma RowD(i: bv4) ensures ROWD[i as int] == EightSteps(0xD0 | i as bv32) {}
  lemma RowE(i: bv4) ensures ROWE[i as int] == EightSteps(0xE0 | i as bv32) {}
  lemma RowF(i: bv4) ensures ROWF[i as int] == EightSteps(0xF0 | i as bv32) {}

  // Each entry is eight bit steps of its index.
  lemma TableEntry(b: byte)
    ensures Table(b) == EightSteps(b as bv32)
  {
    var i := (b & 0xF) as bv4;
    match b >> 4
    case 0 => Row0(i); assert 0x00 | i as bv32 == b as bv32;
    case 1 => Row1(i); assert 0x10 | i as bv32 == b as bv32;
    case 2 => Row2(i); assert 0x20 | i as bv32 == b as bv32;
    case 3 => Row3(i); assert 0x30 | i as bv32 == b as bv32;
    case 4 => Row4(i); assert 0x40 | i as bv32 == b as bv32;
    case 5 => Row5(i); assert 0x50 | i as bv32 == b as bv32;
    case 6 => Row6(i); assert 0x60 | i as bv32 == b as bv32;
    case 7 => Row7(i); assert 0x70 | i as bv32 == b as bv32;
    case 8 => Row8(i); assert 0x80 | i as bv32 == b as bv32;
    case 9 => Row9(i); assert 0x90 | i as bv32 == b as bv32;
    case 10 => RowA(i); assert 0xA0 | i as bv32 == b as bv32;
    case 11 => RowB(i); assert 0xB0 | i as bv32 == b as bv32;
    case 12 => RowC(i); assert 0xC0 | i as bv32 == b as bv32;
    case 13 => RowD(i); assert 0xD0 | i as bv32 == b as bv32;
    case 14 => RowE(i); assert 0xE0 | i as bv32 == b as bv32;
    case _ => RowF(i); assert 0xF0 | i as bv32 == b as bv32;
  }

  // ----- the byte loop refines the bit loop

  ghost predicate ShiftsByBytes(e8: bv32 -> bv32) {
    forall z :: e8(z) == e8(z & 0xFF) ^ (z >> 8)
  }

  ghost predicate TableOf(tab: byte -> bv32, e8: bv32 -> bv32) {
    forall b :: tab(b) == e8(b as bv32)
  }

  lemma EightStepsShift()
    ensures ShiftsByBytes(EightSteps)
  {
    forall z ensures EightSteps(z) == EightSteps(z & 0xFF) ^ (z >> 8) {
      LowByteDecides((a: bv32, b: bv32) => a ^ b, z, z & 0xFF, z & 0xFFFF_FF00, z >> 8);
    }
  }

  lemma TableEntries()
    ensures TableOf(Table, EightSteps)
  {
    forall b ensures Table(b) == EightSteps(b as bv32) {
      TableEntry(b);
    }
  }

  // One iteration of the source's loop.
  function LookUpOf(tab: byte -> bv32): (bv32, byte) -> bv32 {
    (crc, p) => tab(Index(crc, p)) ^ DropByte(crc)
  }

  function DropByte(crc: bv32): bv32 { crc >> 8 }

  function Index(crc: bv32, p: byte): byte { ((crc ^ p as bv32) & 0xFF) as byte }

  lemma LowBits(crc: bv32, p: byte)
    ensures Enter(crc, p) >> 8 == DropByte(crc) && Index(crc, p) as bv32 == Enter(crc, p) & 0xFF
  {
  }

  // One table look-up is eight bit steps.
  lemma LookUpIsStep(tab: byte -> bv32, e8: bv32 -> bv32)
    requires ShiftsByBytes(e8) && TableOf(tab, e8)
    ensures forall crc, p :: LookUpOf(tab)(crc, p) == StepOf(e8)(crc, p)
  {
    forall crc, p ensures LookUpOf(tab)(crc, p) == StepOf(e8)(crc, p) {
      LowBits(crc, p);
    }
  }

  lemma RegisterSnoc(step: (bv32, byte) -> bv32, c: bv32, s: seq<byte>, p: byte)
    ensures Register(step, c, s + [p]) == step(Register(step, c, s), p)
  {
    assert (s + [p])[..|s|] == s;
  }

  // The loop, for any step function and any way of computing it.
  method CrcLoop(tableStep: (bv32, byte) -> bv32, ghost step: (bv32, byte) -> bv32,
                 crcIn: bv32, buf: array<byte>, size: nat) returns (r: bv32)
    requires size <= buf.Length
    requires forall c, p :: tableStep(c, p) == step(c, p)
    ensures r == Crc(step, crcIn, buf[..size])
  {
    var p := 0;
    var crc := Invert(crcIn);
    ghost var c0 := crc;
    var left := size;
    while left > 0
      invariant p + left == size
      invariant crc == Register(step, c0, buf[..p])
    {
      left := left - 1;
      RegisterSnoc(step, c0, buf[..p], buf[p]);
      assert buf[..p + 1] == buf[..p] + [buf[p]];
      crc := tableStep(crc, buf[p]);
      p := p + 1;
    }
    r := Invert(crc);
  }

  // size is a C int counted down to zero.
  method IavbCrc32(crcIn: bv32, buf: array<byte>, size: nat) returns (r: bv32)
    requires size <= buf.Length
    ensures r == CheckValue(crcIn, buf[..size])
  {
    EightStepsShift();
    TableEntries();
    LookUpIsStep(Table, EightSteps);
    r := CrcLoop(LookUpOf(Table), StepOf(EightSteps), crcIn, buf, size);
  }

  // The conversion of size to int must not change it.
  method AvbCrc32(buf: array<byte>, size: nat) returns (r: bv32)
    requires size <= buf.Length && size < 0x8000_0000
    ensures r == CheckValue(0, buf[..size])
  {
    r := IavbCrc32(0, buf, size);
  }

  // ----- the check continues over concatenation

  lemma {:induction false} RegisterConcat(step: (bv32, byte) -> bv32, c: bv32, s: seq<byte>, t: seq<byte>)
    ensures Register(step, c, s + t) == Register(step, Register(step, c, s), t)
  {
    if t == [] {
      assert s + t == s;
    } else {
      var (front, p) := (t[..|t| - 1], t[|t| - 1]);
      RegisterConcat(step, c, s, front);
      assert s + t == (s + front) + [p];
      RegisterSnoc(step, c, s + front, p);
    }
  }

  lemma InvertTwice(x: bv32)
    ensures Invert(Invert(x)) == x
  {
  }

  lemma CrcConcat(step: (bv32, byte) -> bv32, crcIn: bv32, s: seq<byte>, t: seq<byte>)
    ensures Crc(step, crcIn, s + t) == Crc(step, Crc(step, crcIn, s), t)
  {
    RegisterConcat(step, Invert(crcIn), s, t);
    InvertTwice(Register(step, Invert(crcIn), s));
  }

  lemma Crc32Concat(crcIn: bv32, s: seq<byte>, t: seq<byte>)
    ensures CheckValue(crcIn, s + t) == CheckValue(CheckValue(crcIn, s), t)
  {
    CrcConcat(StepOf(EightSteps), crcIn, s, t);
  }

  // ----- the published check value

  // One step of the register, with the eight bit steps unknown.
  lemma OneByte(e8: bv32 -> bv32, c: bv32, s: seq<byte>, k: nat, before: bv32, entered: bv32, after: bv32)
    requires k < |s| && Register(StepOf(e8), c, s[..k]) == before
    requires Enter(before, s[k]) == entered && e8(entered) == after
    ensures Register(StepOf(e8), c, s[..k + 1]) == after
  {
    assert s[..k + 1] == s[..k] + [s[k]];
    RegisterSnoc(StepOf(e8), c, s[..k], s[k]);
  }

  lemma Digit1() ensures EightSteps(0xffffffce) == 0x7c231048 {}
  lemma Digit2() ensures EightSteps(0x7c23107a) == 0xb0acbb32 {}
  lemma Digit3() ensures EightSteps(0xb0acbb01) == 0x77b79c2d {}
  lemma Digit4() ensures EightSteps(0x77b79c19) == 0x641c1f5c {}
  lemma Digit5() ensures EightSteps(0x641c1f69) == 0x340ac5e3 {}
  lemma Digit6() ensures EightSteps(0x340ac5d5) == 0xf68d2c9e {}
  lemma Digit7() ensures EightSteps(0xf68d2ca9) == 0xaffc9660 {}
  lemma Digit8() ensures EightSteps(0xaffc9658) == 0x651f2550 {}
  lemma Digit9() ensures EightSteps(0x651f2569) == 0x340bc6d9 {}

  // The nine steps, once the bit steps of each are known.
  lemma NineDigits(e8: bv32 -> bv32, s: seq<byte>)
    requires s == [0x31, 0x32, 0x33, 0x34, 0x35, 0x36, 0x37, 0x38, 0x39]
    requires e8(0xffffffce) == 0x7c231048 && e8(0x7c23107a) == 0xb0acbb32 && e8(0xb0acbb01) == 0x77b79c2d
    requires e8(0x77b79c19) == 0x641c1f5c && e8(0x641c1f69) == 0x340ac5e3 && e8(0x340ac5d5) == 0xf68d2c9e
    requires e8(0xf68d2ca9) == 0xaffc9660 && e8(0xaffc9658) == 0x651f2550 && e8(0x651f2569) == 0x340bc6d9
    ensures Register(StepOf(e8), 0xffffffff, s[..9]) == 0x340bc6d9
  {
    assert s[..0] == [];
    OneByte(e8, 0xffffffff, s, 0, 0xffffffff, 0xffffffce, 0x7c231048);
    OneByte(e8, 0xffffffff, s, 1, 0x7c231048, 0x7c23107a, 0xb0acbb32);
    OneByte(e8, 0xffffffff, s, 2, 0xb0acbb32, 0xb0acbb01, 0x77b79c2d);
    OneByte(e8, 0xffffffff, s, 3, 0x77b79c2d, 0x77b79c19, 0x641c1f5c);
    OneByte(e8, 0xffffffff, s, 4, 0x641c1f5c, 0x641c1f69, 0x340ac5e3);
    OneByte(e8, 0xffffffff, s, 5, 0x340ac5e3, 0x340ac5d5, 0xf68d2c9e);
    OneByte(e8, 0xffffffff, s, 6, 0xf68d2c9e, 0xf68d2ca9, 0xaffc9660);
    OneByte(e8, 0xffffffff, s, 7, 0xaffc9660, 0xaffc9658, 0x651f2550);
    OneByte(e8, 0xffffffff, s, 8, 0x651f2550, 0x651f2569, 0x340bc6d9);
  }

  // The check value that catalogues of cyclic redundancy checks give for this one: that of the nine
  // characters 1 to 9.
  lemma PublishedCheck()
    ensures CheckValue(0, [0x31, 0x32, 0x33, 0x34, 0x35, 0x36, 0x37, 0x38, 0x39]) == 0xCBF43926
  {
    var s: seq<byte> := [0x31, 0x32, 0x33, 0x34, 0x35, 0x36, 0x37, 0x38, 0x39];
    Digit1(); Digit2(); Digit3();
    Digit4(); Digit5(); Digit6();
    Digit7(); Digit8(); Digit9();
    NineDigits(EightSteps, s);
    assert s[..9] == s;
  }

  // ----- what the check detects

  lemma BitStepInjective(x: bv32, y: bv32)
    requires BitStep(x) == BitStep(y)
    ensures x == y
  {
  }

  lemma EightInjective<T(!new)>(f: T -> T, x: T, y: T)
    requires forall a, b :: f(a) == f(b) ==> a == b
    requires f(f(f(f(f(f(f(f(x)))))))) == f(f(f(f(f(f(f(f(y))))))))
    ensures x == y
  {
  }

  ghost predicate Injective(f: bv32 -> bv32) {
    forall a, b :: f(a) == f(b) ==> a == b
  }

  lemma EightStepsInjective()
    ensures Injective(EightSteps)
  {
    forall a, b | BitStep(a) == BitStep(b) ensures a == b {
      BitStepInjective(a, b);
    }
    forall x, y | EightSteps(x) == EightSteps(y) ensures x == y {
      EightInjective(BitStep, x, y);
    }
  }

  lemma EnterLossless(c: bv32, d: bv32, p: byte, q: byte)
    requires Enter(c, p) == Enter(d, q)
    ensures p == q ==> c == d
    ensures c == d ==> p == q
  {
  }

  // A step loses neither the register nor the byte.
  ghost predicate Lossless(step: (bv32, byte) -> bv32) {
    && (forall c, d, p :: step(c, p) == step(d, p) ==> c == d)
    && (forall c, p, q :: step(c, p) == step(c, q) ==> p == q)
  }

  lemma StepLossless(e8: bv32 -> bv32)
    requires Injective(e8)
    ensures Lossless(StepOf(e8))
  {
    var step := StepOf(e8);
    forall c, d, p | step(c, p) == step(d, p) ensures c == d {
      EnterLossless(c, d, p, p);
    }
    forall c, p, q | step(c, p) == step(c, q) ensures p == q {
      EnterLossless(c, c, p, q);
    }
  }

  lemma {:induction false} RegisterInjective(step: (bv32, byte) -> bv32, c: bv32, d: bv32, s: seq<byte>)
    requires Lossless(step) && Register(step, c, s) == Register(step, d, s)
    ensures c == d
  {
    if s != [] {
      var (front, x) := (s[..|s| - 1], s[|s| - 1]);
      assert step(Register(step, c, front), x) == step(Register(step, d, front), x);
      RegisterInjective(step, c, d, front);
    }
  }

  lemma InvertInjective(x: bv32, y: bv32)
    requires Invert(x) == Invert(y)
    ensures x == y
  {
  }

  lemma SingleByteChanges(step: (bv32, byte) -> bv32, crcIn: bv32, a: seq<byte>, x: byte, y: byte, b: seq<byte>)
    requires Lossless(step) && Crc(step, crcIn, a + [x] + b) == Crc(step, crcIn, a + [y] + b)
    ensures x == y
  {
    var c := Invert(crcIn);
    InvertInjective(Register(step, c, a + [x] + b), Register(step, c, a + [y] + b));
    RegisterConcat(step, c, a + [x], b);
    RegisterConcat(step, c, a + [y], b);
    RegisterInjective(step, Register(step, c, a + [x]), Register(step, c, a + [y]), b);
    RegisterSnoc(step, c, a, x);
    RegisterSnoc(step, c, a, y);
  }

  // Changing one byte, anywhere, always changes the check value.
  lemma SingleByteDetected(crcIn: bv32, a: seq<byte>, x: byte, y: byte, b: seq<byte>)
    requires x != y
    ensures CheckValue(crcIn, a + [x] + b) != CheckValue(crcIn, a + [y] + b)
  {
    if CheckValue(crcIn, a + [x] + b) == CheckValue(crcIn, a + [y] + b) {
      EightStepsInjective();
      StepLossless(EightSteps);
      SingleByteChanges(StepOf(EightSteps), crcIn, a, x, y, b);
    }
  }
}
