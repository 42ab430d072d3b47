/** The streaming hash of Application/UefiAvb/libavb/avb_sha256.c: avb_sha256_init, update and
    final over a context whose partial block is kept between calls. */
module Sha256 {
  import opened Bytes
  import opened Sequences
  import opened ByteOrder
  import opened Sha256Core
  import opened Sha256Padding
  import opened Sha256Transform

  // The digest of a padded message.
  function DigestOf<W>(ops: WordOps<W>, step: (Regs<W>, Block) -> Regs<W>, m: seq<byte>): (d: seq<byte>)
    requires |m| % 64 == 0
    ensures |d| == 32
  {
    DigestBytes(ops, Chain(step, ops.iv, m, 0, |m| / 64))
  }

  // Section 6.2 of FIPS 180-4 on a whole message at once.
  function Hash<W>(ops: WordOps<W>, m: seq<byte>): (d: seq<byte>)
    ensures |d| == 32
  {
    DigestOf(ops, Step(ops), FipsPadded(m))
  }

  method CopyBytes(dst: array<byte>, d: nat, src: array<byte>, s: nat, n: nat)
    requires dst != src && d + n <= dst.Length && s + n <= src.Length
    modifies dst
    ensures dst[..] == old(dst[..d]) + src[s..s + n] + old(dst[d + n..])
    ensures dst[..d + n] == old(dst[..d]) + src[s..s + n]
  {
    var i := 0;
    while i < n
      invariant 0 <= i <= n
      invariant dst[..d] == old(dst[..d]) && dst[d + i..] == old(dst[d + i..])
      invariant dst[d..d + i] == src[s..s + i]
    {
      dst[d + i] := src[s + i];
      assert dst[d..d + i + 1] == dst[d..d + i] + [src[s + i]];
      assert src[s..s + i + 1] == src[s..s + i] + [src[s + i]];
      i := i + 1;
    }
    assert dst[..] == dst[..d] + dst[d..d + n] + dst[d + n..];
  }

  class AvbSHA256Ctx<W(0,!new)> {
    const ops: WordOps<W>
    const unroll: bool
    const h: array<W>
    const block: array<byte>
    const buf: array<byte>
    var len: nat
    var totLen: nat
    // The whole blocks that were compressed, and their number.
    ghost var done: seq<byte>
    ghost var blocks: nat
    // The compression function, by name only.
    ghost const step: (Regs<W>, Block) -> Regs<W>

    ghost predicate Shaped() {
      && Implements(ops, step)
      && h.Length == 8 && block.Length == 128 && buf.Length == 32
      && block != buf && h as object != block && h as object != buf
    }

    ghost predicate Valid()
      reads this, h, block
    {
      len < 64 && Chained()
    }

    // The whole blocks are accounted for.
    ghost predicate Chained()
      reads this, h
    {
      && Shaped()
      && |done| == 64 * blocks
      && totLen == Wrapped(|done|)
      && RegsOf(h[..]) == Chain(step, ops.iv, done, 0, blocks)
    }

    // Everything that was hashed so far.
    ghost function Fed(): seq<byte>
      requires block.Length == 128 && len < 64
      reads this, block
    {
      done + block[..len]
    }

    constructor (ops: WordOps<W>, unroll: bool)
      ensures this.ops == ops && this.unroll == unroll
      ensures Valid() && Fed() == []
      ensures fresh(h) && fresh(block) && fresh(buf)
    {
      this.ops, this.unroll := ops, unroll;
      step := Step(ops);
      h := new W[8];
      block := new byte[128];
      buf := new byte[32];
      len, totLen := 0, 0;
      done, blocks := [], 0;
      new;
      StepImplements(ops);
      Init();
    }

    // avb_sha256_init
    method Init()
      requires Shaped()
      modifies this, h
      ensures Valid() && Fed() == []
    {
      h[0], h[1], h[2], h[3] := ops.iv.a, ops.iv.b, ops.iv.c, ops.iv.d;
      h[4], h[5], h[6], h[7] := ops.iv.e, ops.iv.f, ops.iv.g, ops.iv.h;
      len, totLen := 0, 0;
      done, blocks := [], 0;
    }

    // SHA256_transform
    method Transform(message: array<byte>, o: nat, blockNb: nat)
      requires Implements(ops, step) && h.Length == 8 && h as object != message && o + 64 * blockNb <= message.Length
      modifies h
      ensures RegsOf(h[..]) == Chain(step, RegsOf(old(h[..])), message[..], o, blockNb)
    {
      ghost var (h0, m) := (RegsOf(h[..]), message[..]);
      var i := 0;
      while i < blockNb
        invariant 0 <= i <= blockNb
        invariant message[..] == m
        invariant RegsOf(h[..]) == Chain(step, h0, m, o, i)
      {
        NextBlock(message, o, i, h0, m);
        i := i + 1;
      }
    }

    method NextBlock(message: array<byte>, o: nat, i: nat, ghost h0: Regs<W>, ghost m: seq<byte>)
      requires Implements(ops, step) && h.Length == 8 && h as object != message && o + 64 * i + 64 <= message.Length && message[..] == m
      requires RegsOf(h[..]) == Chain(step, h0, m, o, i)
      modifies h
      ensures RegsOf(h[..]) == Chain(step, h0, m, o, i + 1)
    {
      ChainNext(step, h0, m, o, i);
      TransformBlock(ops, h, message, o + 64 * i, unroll);
    }

    // avb_sha256_update. The addition of line 333 is done in 32 bits: when it wraps, the
    // update shortens what was hashed instead of extending it.
    method Update(data: array<byte>, o: nat, n: nat)
      requires Valid() && n < WRAP && o + n <= data.Length
      requires data != block && data as object != h
      modifies this, h, block
      ensures Valid()
      ensures old(len) + n < WRAP ==> Fed() == old(Fed()) + data[o..o + n]
      ensures old(len) + n >= WRAP ==> Fed() == old(Fed())[..|old(Fed())| - (WRAP - n)]
    {
      ghost var (part, d) := (block[..len], data[o..o + n]);
      var tmpLen := 64 - len;
      var remLen := if n < tmpLen then n else tmpLen;
      CopyBytes(block, len, data, o, remLen);
      SliceOfSlice(data[..], o, o + n, 0, remLen);
      var sum := Add32(len, n);
      if sum < 64 {
        UpdateShort(sum, n, part, d);
        return;
      }
      var newLen := n - remLen;
      var blockNb, lastLen := BlocksIn(newLen);
      UpdateLong(data, o, n, remLen, blockNb, lastLen, part, d);
    }

    // An update behind s, of which len bytes are still buffered.
    method UpdateBehind(data: array<byte>, n: nat, ghost s: seq<byte>, ghost t: seq<byte>) returns (ghost blocks: nat, ghost len: nat)
      requires Valid() && n < WRAP && n <= data.Length && data != block && data as object != h
      requires Fed() == s && data[..n] == t
      modifies this, h, block
      ensures Valid() && |s| == 64 * blocks + len && len < 64
      ensures Fed() == if len + n < WRAP then s + t else s[..|s| - (WRAP - n)]
    {
      blocks, len := this.blocks, this.len;
      Update(data, 0, n);
      assert data[0..n] == t;
    }

    // Lines 338-351.
    method UpdateLong(data: array<byte>, o: nat, n: nat, remLen: nat, blockNb: nat, lastLen: nat, ghost part: seq<byte>, ghost d: seq<byte>)
      requires Valid() && n == remLen + 64 * blockNb + lastLen && lastLen < 64
      requires o + n <= data.Length && data[o..o + n] == d && data != block && data as object != h
      requires |part| + remLen == 64 && block[..64] == part + d[..remLen]
      modifies this, h, block
      ensures Valid()
      ensures Fed() == old(done) + part + d
    {
      var used := remLen + 64 * blockNb;
      ghost var (b: Block, m, tail) := (block[..64], d[remLen..used], d[used..]);
      SliceOfSlice(data[..], o, o + n, remLen, used);
      SliceOfSlice(data[..], o, o + n, used, n);
      UpdateBlocks(data, o + remLen, blockNb, lastLen, b, m, tail);
      assert d == d[..remLen] + m + tail;
    }

    // Lines 333-336.
    method UpdateShort(sum: nat, n: nat, ghost part: seq<byte>, ghost d: seq<byte>)
      requires Valid() && n < WRAP && |part| == len && |d| == n && sum < 64
      requires sum == (if len + n < WRAP then len + n else len + n - WRAP)
      requires block[..len] == part && (len + n < WRAP ==> block[..len + n] == part + d)
      modifies this`len
      ensures Valid()
      ensures old(len) + n < WRAP ==> Fed() == done + part + d
      ensures old(len) + n >= WRAP ==> Fed() == (done + part)[..|done + part| - (WRAP - n)]
    {
      len := sum;
      if old(len) + n < WRAP {
        assert done + (part + d) == done + part + d;
      } else {
        assert block[..len] == part[..len];
      }
    }

    // Lines 343-351: the filled block, the whole blocks of the data, and what remains of it.
    method UpdateBlocks(data: array<byte>, o: nat, blockNb: nat, remLen: nat, ghost b: Block, ghost m: seq<byte>, ghost tail: seq<byte>)
      requires Chained() && remLen < 64
      requires data != block && data as object != h && o + 64 * blockNb + remLen <= data.Length
      requires block[..64] == b && data[o..o + 64 * blockNb] == m
      requires data[o + 64 * blockNb..o + 64 * blockNb + remLen] == tail
      modifies this, h, block
      ensures Valid()
      ensures done == old(done) + b + m && len == remLen && block[..len] == tail
    {
      AbsorbBlocks(data, o, blockNb, b, m);
      CopyBytes(block, 0, data, o + 64 * blockNb, remLen);
      assert block[..remLen] == tail;
      len := remLen;
    }

    method AbsorbBlocks(data: array<byte>, o: nat, blockNb: nat, ghost b: Block, ghost m: seq<byte>)
      requires Chained()
      requires data != block && data as object != h && o + 64 * blockNb <= data.Length
      requires block[..64] == b && data[o..o + 64 * blockNb] == m
      modifies this`totLen, this`done, this`blocks, h
      ensures Chained() && done == old(done) + b + m
    {
      ChainUpdate(step, ops.iv, done, blocks, b, m, blockNb);
      TransformFilled(data, o, blockNb, b, m);
      totLen := AddTotal(totLen, blockNb, |done|);
      done, blocks := done + b + m, blocks + 1 + blockNb;
    }

    // Lines 343-344.
    method TransformFilled(data: array<byte>, o: nat, blockNb: nat, ghost b: Block, ghost m: seq<byte>)
      requires Shaped() && data != block && data as object != h && o + 64 * blockNb <= data.Length
      requires block[..64] == b && data[o..o + 64 * blockNb] == m
      modifies h
      ensures RegsOf(h[..]) == Chain(step, Chain(step, RegsOf(old(h[..])), b, 0, 1), m, 0, blockNb)
    {
      ghost var (h0, s, d) := (RegsOf(h[..]), block[..], data[..]);
      Transform(block, 0, 1);
      assert s[0..64] == b[0..64];
      ChainMoved(step, h0, s, 0, b, 0, 1);
      ghost var h1 := RegsOf(h[..]);
      Transform(data, o, blockNb);
      assert m[0..64 * blockNb] == m;
      ChainMoved(step, h1, d, o, m, 0, blockNb);
    }
  
    // avb_sha256_final: what is hashed is the message with the padding that the code computes,
    // which is the padding of the standard for every message shorter than 2^29 bytes.
    method Final()
      requires Valid()
      modifies h, block, buf
      ensures buf[..] == DigestOf(ops, Step(ops), CodePadded(old(Fed())))
      ensures |old(Fed())| < 0x2000_0000 ==> buf[..] == Hash(ops, old(Fed()))
    {
      ghost var fed := Fed();
      Finish(fed, block[..len]);
      DigestUnique(ops, step, CodePadded(fed));
      if |fed| < 0x2000_0000 {
        TailsAgree(|fed|);
      }
    }

    // The body of avb_sha256_final.
    method Finish(ghost fed: seq<byte>, ghost part: seq<byte>)
      requires Valid() && block[..len] == part && fed == done + part
      modifies h, block, buf
      ensures buf[..] == DigestOf(ops, step, CodePadded(fed))
    {
      ghost var h1 := Chain(step, ops.iv, done, 0, blocks);
      ghost var lenB;
      var blockNb;
      blockNb, lenB := Pad(part);
      DigestOfPadded(ops, step, done, blocks, part, blockNb, lenB, block[..]);
      FinishBlocks(blockNb, block[..], h1);
    }

    // Lines 362-370.
    method Pad(ghost part: seq<byte>) returns (blockNb: nat, ghost lenB: nat)
      requires Valid() && block[..len] == part
      modifies block
      ensures blockNb == if 55 < len then 2 else 1
      ensures lenB == Wrapped(8 * (|done| + len))
      ensures block[..64 * blockNb] == part + ([0x80] + Zeros(64 * blockNb - len - 5) + BeBytes(lenB, 4))
    {
      blockNb := if 55 < len then 2 else 1;
      var bits := BitLength(totLen, len, |done|);
      lenB := bits;
      PadBlock(64 * blockNb, bits, part);
    }

    method FinishBlocks(blockNb: nat, ghost s: seq<byte>, ghost h1: Regs<W>)
      requires Shaped() && block[..] == s && RegsOf(h[..]) == h1 && 64 * blockNb <= 128
      modifies h, buf
      ensures buf[..] == DigestBytes(ops, Chain(step, h1, s, 0, blockNb))
    {
      Transform(block, 0, blockNb);
      assert block[..] == s;
      UnpackState(Chain(step, h1, s, 0, blockNb));
    }

    // Lines 368-370.
    method PadBlock(pmLen: nat, lenB: nat, ghost part: seq<byte>)
      requires Shaped() && len + 9 <= pmLen <= 128 && block[..len] == part
      modifies block
      ensures block[..pmLen] == part + ([0x80] + Zeros(pmLen - len - 5) + BeBytes(lenB, 4))
    {
      ClearFrom(pmLen, part);
      block[len] := 0x80;
      ghost var front := part + [0x80] + Zeros(pmLen - len - 5);
      assert block[..pmLen - 4] == front;
      StoreLength(pmLen - 4, lenB);
      assert block[..pmLen] == front + BeBytes(lenB, 4);
    }

    method ClearFrom(pmLen: nat, ghost part: seq<byte>)
      requires Shaped() && len <= pmLen <= 128 && block[..len] == part
      modifies block
      ensures block[..pmLen] == part + Zeros(pmLen - len)
    {
      var i := len;
      while i < pmLen
        invariant len <= i <= pmLen
        invariant block[..len] == part
        invariant forall k :: len <= k < i ==> block[k] == 0
      {
        block[i] := 0;
        i := i + 1;
      }
      assert block[len..pmLen] == Zeros(pmLen - len);
      assert block[..pmLen] == block[..len] + block[len..pmLen];
    }

    // UNPACK32
    method StoreLength(o: nat, x: nat)
      requires Shaped() && o + 4 <= 128
      modifies block
      ensures block[..o] == old(block[..o]) && block[o..o + 4] == BeBytes(x, 4)
    {
      BeBytes4(x);
      block[o + 3] := LowByte(x);
      block[o + 2] := LowByte(x / 0x100);
      block[o + 1] := LowByte(x / 0x1_0000);
      block[o] := LowByte(x / 0x100_0000);
      assert block[o..o + 4] == [block[o], block[o + 1], block[o + 2], block[o + 3]];
    }

    // Lines 374-387.
    method UnpackState(ghost r: Regs<W>)
      requires Shaped() && RegsOf(h[..]) == r
      modifies buf
      ensures buf[..] == DigestBytes(ops, r)
    {
      ghost var hs := h[..];
      var i := 0;
      while i < 8
        invariant 0 <= i <= 8 && h[..] == hs
        invariant buf[..4 * i] == Unpacked(ops, hs, i)
      {
        UnpackWord(i, ops.unpack(h[i]));
        i := i + 1;
      }
      UnpackedAll(ops, hs);
      assert buf[..] == buf[..32];
    }

    method UnpackWord(i: nat, q: Quad)
      requires Shaped() && i < 8
      modifies buf
      ensures buf[..4 * (i + 1)] == old(buf[..4 * i]) + q
    {
      buf[4 * i] := q[0];
      buf[4 * i + 1] := q[1];
      buf[4 * i + 2] := q[2];
      buf[4 * i + 3] := q[3];
      assert buf[..4 * i] == old(buf[..4 * i]);
    }
  }

  // How load_and_verify_hash_partition hashes an image behind its salt
  // (Application/UefiAvb/libavb/avb_slot_verify.c). The size of the image is cast to 32 bits.
  method HashSaltedImage<W(0,!new)>(ops: WordOps<W>, salt: array<byte>, image: array<byte>, imageSize: u64, unroll: bool)
    returns (digest: array<byte>)
    requires salt.Length < WRAP && imageSize % WRAP <= image.Length
    ensures digest[..] == DigestOf(ops, Step(ops), CodePadded(FedTwice(salt[..], image[..imageSize % WRAP])))
    ensures salt.Length + imageSize % WRAP < 0x2000_0000 ==> digest[..] == Hash(ops, salt[..] + image[..imageSize % WRAP])
  {
    var ctx;
    ghost var blocks, len;
    ghost var (s, t) := (salt[..], image[..imageSize % WRAP]);
    ctx, blocks, len := FeedSaltedImage(ops, salt, image, imageSize % WRAP, unroll, s, t);
    FedTwiceBuffered(s, t, blocks, len);
    ctx.Final();
    digest := ctx.buf;
  }

  // The two calls of avb_sha256_update.
  method FeedSaltedImage<W(0,!new)>(ops: WordOps<W>, salt: array<byte>, image: array<byte>, n: nat, unroll: bool,
                                       ghost s: seq<byte>, ghost t: seq<byte>)
    returns (ctx: AvbSHA256Ctx<W>, ghost blocks: nat, ghost len: nat)
    requires salt.Length < WRAP && n < WRAP && n <= image.Length && salt[..] == s && image[..n] == t
    ensures |s| == 64 * blocks + len && len < 64
    ensures ctx.ops == ops && ctx.Valid()
    ensures ctx.Fed() == if len + |t| < WRAP then s + t else s[..|s| - (WRAP - |t|)]
    ensures fresh(ctx) && fresh(ctx.h) && fresh(ctx.block) && fresh(ctx.buf)
  {
    ctx := new AvbSHA256Ctx<W>(ops, unroll);
    ctx.Update(salt, 0, salt.Length);
    assert salt[0..salt.Length] == s;
    blocks, len := ctx.UpdateBehind(image, n, s, t);
  }

  // Line 365: the length in bits, in 32 bits.
  method BitLength(totLen: nat, len: nat, ghost d: nat) returns (r: nat)
    requires totLen == Wrapped(d)
    ensures r == Wrapped(8 * (d + len))
  {
    WrappedIsMod(d);
    WrappedIsMod(8 * (d + len));
    r := (totLen + len) % WRAP * 8 % WRAP;
    BitLengthWraps(d, len);
  }

  lemma BitLengthWraps(d: nat, len: nat)
    ensures (d % WRAP + len) % WRAP * 8 % WRAP == 8 * (d + len) % WRAP
  {
    assert (d % WRAP + len) % WRAP == (d + len) % WRAP;
    TimesEight(d + len);
  }

  lemma {:induction false} TimesEight(x: nat)
    ensures x % WRAP * 8 % WRAP == 8 * x % WRAP
  {
    if x >= WRAP {
      TimesEight(x - WRAP);
    }
  }

  lemma WholeBlocks(x: nat, k: nat)
    requires x == 64 * k
    ensures x % 64 == 0 && x / 64 == k
  {
  }

  // The padded message, from the chaining value and the last one or two blocks.
  lemma ChainFinal<S>(step: (S, Block) -> S, iv: S, done: seq<byte>, blocks: nat, p: seq<byte>, s: seq<byte>, n: nat)
    requires |done| == 64 * blocks && |p| == 64 * n <= |s| && s[..64 * n] == p
    ensures Chain(step, iv, done + p, 0, blocks + n) == Chain(step, Chain(step, iv, done, 0, blocks), s, 0, n)
  {
    var m := done + p;
    assert m[..|done|] == done && m[|done|..] == p;
    assert m[0..|done|] == done[0..|done|];
    ChainMoved(step, iv, done, 0, m, 0, blocks);
    assert m[|done|..|done| + 64 * n] == s[0..64 * n];
    ChainMoved(step, Chain(step, iv, m, 0, blocks), s, 0, m, |done|, n);
    ChainSplit(step, iv, m, 0, blocks, n);
  }

  lemma DigestByBlocks<W>(ops: WordOps<W>, step: (Regs<W>, Block) -> Regs<W>, m: seq<byte>, k: nat)
    requires |m| == 64 * k
    ensures |m| % 64 == 0 && DigestOf(ops, step, m) == DigestBytes(ops, Chain(step, ops.iv, m, 0, k))
  {
    WholeBlocks(|m|, k);
  }

  // The digest of the padded message, from the blocks done before and the padded ones in s.
  lemma DigestOfPadded<W>(ops: WordOps<W>, step: (Regs<W>, Block) -> Regs<W>, done: seq<byte>, blocks: nat,
                          part: seq<byte>, blockNb: nat, lenB: nat, s: seq<byte>)
    requires |done| == 64 * blocks && |part| < 64 && 64 * blockNb <= |s|
    requires blockNb == (if 55 < |part| then 2 else 1) && lenB == Wrapped(8 * (|done| + |part|))
    requires s[..64 * blockNb] == part + ([0x80] + Zeros(64 * blockNb - |part| - 5) + BeBytes(lenB, 4))
    ensures DigestOf(ops, step, CodePadded(done + part))
         == DigestBytes(ops, Chain(step, Chain(step, ops.iv, done, 0, blocks), s, 0, blockNb))
  {
    var p := s[..64 * blockNb];
    WrappedIsMod(8 * (|done| + |part|));
    PaddedBlocks(done, part, blocks, blockNb, lenB);
    ChainFinal(step, ops.iv, done, blocks, p, s, blockNb);
    DigestByBlocks(ops, step, done + p, blocks + blockNb);
  }

  lemma DigestUnique<W(!new)>(ops: WordOps<W>, step: (Regs<W>, Block) -> Regs<W>, m: seq<byte>)
    requires Implements(ops, step) && |m| % 64 == 0
    ensures DigestOf(ops, step, m) == DigestOf(ops, Step(ops), m)
  {
    ChainUnique(ops, step, ops.iv, m, |m| / 64);
  }

  // The blocks done before, one full block, and n blocks of the data.
  lemma ChainUpdate<S>(step: (S, Block) -> S, iv: S, done: seq<byte>, blocks: nat, b: Block, m: seq<byte>, n: nat)
    requires |done| == 64 * blocks && |m| == 64 * n
    ensures Chain(step, iv, done + b + m, 0, blocks + 1 + n)
         == Chain(step, Chain(step, Chain(step, iv, done, 0, blocks), b, 0, 1), m, 0, n)
  {
    var s := done + b + m;
    PartsOfThree(done, b, m);
    ChainMoved(step, iv, done, 0, s, 0, blocks);
    ChainMoved(step, Chain(step, iv, done, 0, blocks), b, 0, s, |done|, 1);
    ChainSplit(step, iv, s, 0, blocks, 1);
    ChainMoved(step, Chain(step, iv, s, 0, blocks + 1), m, 0, s, |done| + 64, n);
    ChainSplit(step, iv, s, 0, blocks + 1, n);
  }

  lemma PartsOfThree(a: seq<byte>, b: seq<byte>, c: seq<byte>)
    ensures var s := a + b + c;
            && a[0..|a|] == s[0..|a|]
            && b[0..|b|] == s[|a|..|a| + |b|]
            && c[0..|c|] == s[|a| + |b|..|a| + |b| + |c|]
  {
  }

  // A 32-bit count: n modulo 2^32.
  function Wrapped(n: nat): nat {
    if n < WRAP then n else Wrapped(n - WRAP)
  }

  lemma {:induction false} WrappedIsMod(n: nat)
    ensures Wrapped(n) == n % WRAP
  {
    if n >= WRAP {
      WrappedIsMod(n - WRAP);
    }
  }

  method Add32(x: nat, y: nat) returns (r: nat)
    requires x < WRAP && y < WRAP
    ensures r == if x + y < WRAP then x + y else x + y - WRAP
  {
    r := (x + y) % WRAP;
  }

  method BlocksIn(n: nat) returns (q: nat, r: nat)
    ensures n == 64 * q + r && r < 64
  {
    q, r := n / 64, n % 64;
  }

  // Line 351.
  method AddTotal(t: nat, n: nat, ghost d: nat) returns (r: nat)
    requires t == Wrapped(d)
    ensures r == Wrapped(d + 64 + 64 * n)
  {
    WrappedIsMod(d);
    WrappedIsMod(d + 64 + 64 * n);
    AddModular(d, 64 + 64 * n);
    r := (t + (n + 1) * 64 % WRAP) % WRAP;
  }

  lemma AddModular(x: nat, y: nat)
    ensures (x % WRAP + y % WRAP) % WRAP == (x + y) % WRAP
  {
  }
}
