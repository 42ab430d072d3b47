/** Library/PlatformFlashAccessLib/PlatformFlashAccessLib.c: a firmware image is written block
    by block, and blocks that already hold the right bytes are left alone. */
module Flash {
  import opened Bytes
  import opened Sequences

  const BLOCK_SIZE: nat := 0x1000

  datatype Status = Success | OutOfResources | VolumeCorrupted | DeviceError

  // A command to the SPI controller.
  datatype Command = Erase(offset: nat) | Program(offset: nat, data: seq<byte>)

  // How the controller answers a command and what it leaves in the addressed bytes. It may
  // leave anything, whether or not it reports an error.
  datatype Reply = Reply(ok: bool, fill: nat -> byte)

  // The commands that erase or program a range in pieces of at most one block.
  function Erases(offset: nat, n: nat): seq<Command>
    decreases n
  {
    if n < BLOCK_SIZE then [] else [Erase(offset)] + Erases(offset + BLOCK_SIZE, n - BLOCK_SIZE)
  }

  function Programs(offset: nat, data: seq<byte>): seq<Command>
    decreases |data|
  {
    if data == [] then []
    else
      var n := if |data| > BLOCK_SIZE then BLOCK_SIZE else |data|;
      [Program(offset, data[..n])] + Programs(offset + n, data[n..])
  }

  // What brings block i of the range at offset a of the memory m to the contents of b: two
  // commands if it differs, none if not.
  function BlockPlan(m: seq<byte>, a: nat, b: seq<byte>, i: nat): seq<Command>
    requires a + (i + 1) * BLOCK_SIZE <= |m| && (i + 1) * BLOCK_SIZE <= |b|
  {
    var (k, block) := (a + i * BLOCK_SIZE, b[i * BLOCK_SIZE..(i + 1) * BLOCK_SIZE]);
    if m[k..k + BLOCK_SIZE] == block then [] else [Erase(k), Program(k, block)]
  }

  // The commands for the first n blocks.
  function Plan(m: seq<byte>, a: nat, b: seq<byte>, n: nat): seq<Command>
    requires a + n * BLOCK_SIZE <= |m| && n * BLOCK_SIZE <= |b|
  {
    if n == 0 then [] else Plan(m, a, b, n - 1) + BlockPlan(m, a, b, n - 1)
  }

  // The same by steps; the trigger keeps the recursion out of the proofs about the loop.
  ghost predicate IsPlan(m: seq<byte>, a: nat, b: seq<byte>, n: nat, plan: nat -> seq<Command>) {
    && a + n * BLOCK_SIZE <= |m| && n * BLOCK_SIZE <= |b|
    && plan(0) == []
    && forall i: nat {:trigger BlockPlan(m, a, b, i)} :: i < n ==> plan(i + 1) == plan(i) + BlockPlan(m, a, b, i)
  }

  lemma PlanByBlocks(m: seq<byte>, a: nat, b: seq<byte>, n: nat) returns (plan: nat -> seq<Command>)
    requires a + n * BLOCK_SIZE <= |m| && n * BLOCK_SIZE <= |b|
    ensures IsPlan(m, a, b, n, plan) && plan(n) == Plan(m, a, b, n)
  {
    plan := (i: nat) => if a + i * BLOCK_SIZE <= |m| && i * BLOCK_SIZE <= |b| then Plan(m, a, b, i) else [];
    AgreesIsPlan(m, a, b, n, plan);
  }

  lemma AgreesIsPlan(m: seq<byte>, a: nat, b: seq<byte>, n: nat, plan: nat -> seq<Command>)
    requires a + n * BLOCK_SIZE <= |m| && n * BLOCK_SIZE <= |b|
    requires forall i: nat {:trigger plan(i)} :: i <= n ==> plan(i) == Plan(m, a, b, i)
    ensures IsPlan(m, a, b, n, plan)
  {
    forall i: nat | i < n ensures plan(i + 1) == plan(i) + BlockPlan(m, a, b, i) {
      assert plan(i + 1) == Plan(m, a, b, i + 1);
    }
  }

  // What is planned for the first blocks comes first.
  lemma {:induction false} PlanGrows(m: seq<byte>, a: nat, b: seq<byte>, n: nat, plan: nat -> seq<Command>, i: nat)
    requires IsPlan(m, a, b, n, plan) && i <= n
    ensures plan(i) <= plan(n)
    decreases n - i
  {
    if i < n {
      PlanGrows(m, a, b, n, plan, i + 1);
      assert plan(i + 1) == plan(i) + BlockPlan(m, a, b, i);
    }
  }

  function Piece(total: nat, done: nat): nat
    requires done <= total
  {
    if total - done > BLOCK_SIZE then BLOCK_SIZE else total - done
  }

  // The k-th piece of the data.
  lemma {:induction false} ProgramsAt(offset: nat, data: seq<byte>, k: nat)
    requires k * BLOCK_SIZE < |data|
    ensures var done := k * BLOCK_SIZE;
            k < |Programs(offset, data)|
            && Programs(offset, data)[k] == Program(offset + done, data[done..done + Piece(|data|, done)])
    ensures k * BLOCK_SIZE + BLOCK_SIZE >= |data| ==> k + 1 == |Programs(offset, data)|
    decreases k
  {
    if k > 0 {
      var (rest, done) := (data[BLOCK_SIZE..], (k - 1) * BLOCK_SIZE);
      ProgramsAt(offset + BLOCK_SIZE, rest, k - 1);
      SliceOfSlice(data, BLOCK_SIZE, |data|, done, done + Piece(|rest|, done));
      assert data[BLOCK_SIZE..|data|] == rest;
    } else {
      var n := Piece(|data|, 0);
      assert data[0..n] == data[..n];
      assert |data| <= BLOCK_SIZE ==> data[n..] == [];
    }
  }

  // The k-th block to be erased.
  lemma {:induction false} ErasesAt(offset: nat, n: nat, k: nat)
    requires (k + 1) * 4096 <= n
    ensures k < |Erases(offset, n)| && Erases(offset, n)[k] == Erase(offset + k * 4096)
    ensures (k + 2) * 4096 > n ==> |Erases(offset, n)| == k + 1
    decreases k
  {
    if k > 0 {
      ErasesAt(offset + BLOCK_SIZE, n - BLOCK_SIZE, k - 1);
    }
  }

  // The command for piece k of a range of the buffer.
  lemma ProgramOfPiece(b: seq<byte>, pos: nat, count: nat, offset: nat, k: nat, n: nat)
    requires pos + count <= |b| && k * BLOCK_SIZE < count && n == Piece(count, k * BLOCK_SIZE)
    ensures var (full, done) := (Programs(offset, b[pos..pos + count]), k * BLOCK_SIZE);
            && k < |full| && full[k] == Program(offset + done, b[pos + done..pos + done + n])
            && (done + n == count ==> k + 1 == |full|)
  {
    ProgramsAt(offset, b[pos..pos + count], k);
    SliceOfSlice(b, pos, pos + count, k * BLOCK_SIZE, k * BLOCK_SIZE + n);
  }

  // A range that already holds the right bytes needs no command.
  lemma {:induction false} NothingToDo(m: seq<byte>, a: nat, b: seq<byte>, n: nat)
    requires a + n * BLOCK_SIZE <= |m| && n * BLOCK_SIZE <= |b|
    requires m[a..a + n * BLOCK_SIZE] == b[..n * BLOCK_SIZE]
    ensures Plan(m, a, b, n) == []
  {
    if n > 0 {
      var k := (n - 1) * BLOCK_SIZE;
      SplitLast(m, a, b, k, n * BLOCK_SIZE);
      NothingToDo(m, a, b, n - 1);
    }
  }

  lemma SplitLast(m: seq<byte>, a: nat, b: seq<byte>, k: nat, n: nat)
    requires k <= n && a + n <= |m| && n <= |b| && m[a..a + n] == b[..n]
    ensures m[a..a + k] == b[..k] && m[a + k..a + n] == b[k..n]
  {
    var (p, q) := (m[a..a + n], b[..n]);
    assert p[..k] == m[a..a + k] && q[..k] == b[..k];
    assert p[k..] == m[a + k..a + n] && q[k..] == b[k..n];
  }

  // What a call leaves behind when it ends after i whole blocks: those hold the buffer, the
  // next `open` bytes may hold anything, and the rest is as before.
  ghost predicate WrittenUpTo(m: seq<byte>, m0: seq<byte>, a: nat, b: seq<byte>, i: nat, open: nat) {
    && |m| == |m0| && a + i * BLOCK_SIZE + open <= |m| && i * BLOCK_SIZE <= |b|
    && m[..a] == m0[..a]
    && m[a..a + i * BLOCK_SIZE] == b[..i * BLOCK_SIZE]
    && m[a + i * BLOCK_SIZE + open..] == m0[a + i * BLOCK_SIZE + open..]
  }

  class FlashDevice {
    const mem: array<byte>
    // PcdFlashAreaBaseAddress and mInternalFdAddress
    const areaBase: nat
    const internalFdAddress: nat
    // The answers to all commands and to all allocations, in their order.
    const controller: nat -> Reply
    const allocates: nat -> bool
    var commands: nat
    var allocations: nat
    ghost var log: seq<Command>

    ghost predicate Valid()
      reads this
    {
      commands == |log| && mem.Length < 0x1_0000_0000
    }

    // EFI_SPI_PROTOCOL.Execute
    method Execute(offset: nat, length: nat, ghost command: Command) returns (ok: bool)
      requires Valid() && offset + length <= mem.Length
      modifies this`commands, this`log, mem
      ensures Valid() && log == old(log) + [command] && ok == controller(old(commands)).ok
      ensures mem[..offset] == old(mem[..offset]) && mem[offset + length..] == old(mem[offset + length..])
    {
      var reply := controller(commands);
      commands := commands + 1;
      log := log + [command];
      ok := reply.ok;
      var i := 0;
      while i < length
        invariant 0 <= i <= length
        invariant mem[..offset] == old(mem[..offset]) && mem[offset + length..] == old(mem[offset + length..])
        modifies mem
      {
        mem[offset + i] := reply.fill(i);
        i := i + 1;
      }
    }

    // SpiFlashWrite
    method SpiFlashWrite(address: nat, numBytes: nat, buffer: array<byte>, pos: nat) returns (status: Status, written: nat)
      requires Valid() && areaBase <= address && address - areaBase + numBytes <= mem.Length
      requires buffer != mem && pos + numBytes <= buffer.Length
      modifies this`commands, this`log, mem
      ensures Valid() && written <= numBytes
      ensures var offset := address - areaBase;
              && mem[..offset] == old(mem[..offset]) && mem[offset + numBytes..] == old(mem[offset + numBytes..])
      ensures status == Success ==> written == numBytes && log == old(log) + Programs(address - areaBase, buffer[pos..pos + numBytes])
      ensures status != Success ==> status == DeviceError && written < numBytes
      ensures old(log) <= log <= old(log) + Programs(address - areaBase, buffer[pos..pos + numBytes])
    {
      var (offset, bufferPos) := (address - areaBase, pos);
      ghost var (o0, data, l0, k) := (offset, buffer[pos..pos + numBytes], log, 0);
      ghost var full := Programs(o0, data);
      var remainingBytes := numBytes;
      status := Success;
      while remainingBytes > 0
        invariant 0 <= remainingBytes <= numBytes && Valid() && status == Success
        invariant offset == o0 + (numBytes - remainingBytes) && bufferPos == pos + (numBytes - remainingBytes)
        invariant mem[..o0] == old(mem[..o0]) && mem[o0 + numBytes..] == old(mem[o0 + numBytes..])
        invariant remainingBytes > 0 ==> numBytes - remainingBytes == k * BLOCK_SIZE
        invariant remainingBytes == 0 ==> k == |full|
        invariant buffer[pos..pos + numBytes] == data
        invariant k <= |full| && log == l0 + full[..k]
      {
        var length := if remainingBytes > BLOCK_SIZE then BLOCK_SIZE else remainingBytes;
        ProgramOfPiece(buffer[..], pos, numBytes, o0, k, length);
        assert buffer[..][pos..pos + numBytes] == data;
        assert buffer[..][bufferPos..bufferPos + length] == buffer[bufferPos..bufferPos + length];
        var ok := ExecuteWithin(offset, length, full[k], o0, numBytes);
        k := k + 1;
        assert log == l0 + full[..k];
        if !ok {
          status := DeviceError;
          break;
        }
        remainingBytes := remainingBytes - length;
        offset := offset + length;
        bufferPos := bufferPos + length;
      }
      written := numBytes - remainingBytes;
    }

    // A command inside a larger range leaves everything outside that range alone.
    method ExecuteWithin(offset: nat, length: nat, ghost command: Command, ghost from: nat, ghost count: nat) returns (ok: bool)
      requires Valid() && from <= offset && offset + length <= from + count <= mem.Length
      modifies this`commands, this`log, mem
      ensures Valid() && log == old(log) + [command]
      ensures mem[..from] == old(mem[..from]) && mem[from + count..] == old(mem[from + count..])
    {
      ghost var was := mem[..];
      ok := Execute(offset, length, command);
      assert mem[..from] == mem[..offset][..from] && was[..from] == was[..offset][..from];
      assert mem[from + count..] == mem[offset + length..][from + count - offset - length..];
      assert was[from + count..] == was[offset + length..][from + count - offset - length..];
    }

    // SpiFlashBlockErase
    method SpiFlashBlockErase(address: nat, numBytes: nat) returns (status: Status, erased: nat)
      requires Valid() && areaBase <= address && address - areaBase + numBytes <= mem.Length
      requires numBytes % BLOCK_SIZE == 0
      modifies this`commands, this`log, mem
      ensures Valid() && erased <= numBytes
      ensures var offset := address - areaBase;
              && mem[..offset] == old(mem[..offset]) && mem[offset + numBytes..] == old(mem[offset + numBytes..])
      ensures status == Success ==> erased == numBytes && log == old(log) + Erases(address - areaBase, numBytes)
      ensures status != Success ==> status == DeviceError && erased < numBytes
      ensures old(log) <= log <= old(log) + Erases(address - areaBase, numBytes)
    {
      var offset := address - areaBase;
      ghost var (o0, l0) := (offset, log);
      ghost var done: seq<Command> := [];
      var remainingBytes := numBytes;
      status := Success;
      while remainingBytes > 0
        invariant 0 <= remainingBytes <= numBytes && remainingBytes % BLOCK_SIZE == 0 && Valid() && status == Success
        invariant offset == o0 + (numBytes - remainingBytes)
        invariant mem[..o0] == old(mem[..o0]) && mem[o0 + numBytes..] == old(mem[o0 + numBytes..])
        invariant log == l0 + done
        invariant Erases(o0, numBytes) == done + Erases(offset, remainingBytes)
      {
        assert Erases(offset, remainingBytes) == [Erase(offset)] + Erases(offset + BLOCK_SIZE, remainingBytes - BLOCK_SIZE);
        var ok := ExecuteWithin(offset, BLOCK_SIZE, Erase(offset), o0, numBytes);
        done := done + [Erase(offset)];
        if !ok {
          status := DeviceError;
          break;
        }
        remainingBytes := remainingBytes - BLOCK_SIZE;
        offset := offset + BLOCK_SIZE;
      }
      erased := numBytes - remainingBytes;
    }

    // InternalCompareBlock
    method InternalCompareBlock(baseAddress: nat, buffer: array<byte>, pos: nat) returns (status: Status)
      requires Valid() && areaBase <= baseAddress && baseAddress - areaBase + BLOCK_SIZE <= mem.Length
      requires pos + BLOCK_SIZE <= buffer.Length
      modifies this`allocations
      ensures Valid()
      ensures var a := baseAddress - areaBase;
              status == Success <==> allocates(old(allocations)) && mem[a..a + BLOCK_SIZE] == buffer[pos..pos + BLOCK_SIZE]
      ensures allocates(old(allocations)) ==> status in {Success, VolumeCorrupted}
      ensures allocations == old(allocations) + 1
    {
      var gotMemory := allocates(allocations);
      allocations := allocations + 1;
      if !gotMemory {
        return OutOfResources;
      }
      var a := baseAddress - areaBase;
      var i := 0;
      while i < BLOCK_SIZE && mem[a + i] == buffer[pos + i]
        invariant 0 <= i <= BLOCK_SIZE
        invariant mem[a..a + i] == buffer[pos..pos + i]
      {
        i := i + 1;
      }
      if i < BLOCK_SIZE {
        assert mem[a..a + BLOCK_SIZE][i] != buffer[pos..pos + BLOCK_SIZE][i];
        return VolumeCorrupted;
      }
      return Success;
    }

    // InternalEraseBlock
    method InternalEraseBlock(baseAddress: nat) returns (status: Status)
      requires Valid() && areaBase <= baseAddress && baseAddress - areaBase + BLOCK_SIZE <= mem.Length
      modifies this`commands, this`log, mem
      ensures Valid() && SameOutside(old(mem[..]), mem[..], baseAddress - areaBase)
      ensures old(log) <= log <= old(log) + [Erase(baseAddress - areaBase)]
      ensures status == Success ==> log == old(log) + [Erase(baseAddress - areaBase)]
    {
      OneErase(baseAddress - areaBase);
      var erased;
      status, erased := SpiFlashBlockErase(baseAddress, BLOCK_SIZE);
    }

    // InternalWriteBlock. However many bytes it writes, it reads back one whole block.
    method InternalWriteBlock(baseAddress: nat, buffer: array<byte>, pos: nat, bufferSize: nat) returns (status: Status)
      requires Valid() && areaBase <= baseAddress && buffer != mem
      requires baseAddress - areaBase + BLOCK_SIZE <= mem.Length && baseAddress - areaBase + bufferSize <= mem.Length
      requires pos + BLOCK_SIZE <= buffer.Length && pos + bufferSize <= buffer.Length
      modifies this`commands, this`log, this`allocations, mem
      ensures Valid()
      ensures var a := baseAddress - areaBase;
              mem[..a] == old(mem[..a]) && mem[a + bufferSize..] == old(mem[a + bufferSize..])
      ensures var commands := Programs(baseAddress - areaBase, buffer[pos..pos + bufferSize]);
              && old(log) <= log <= old(log) + commands
              && (status == Success ==> log == old(log) + commands)
      ensures status == Success ==>
                mem[baseAddress - areaBase..baseAddress - areaBase + BLOCK_SIZE] == buffer[pos..pos + BLOCK_SIZE]
      ensures old(allocations) <= allocations
    {
      var written;
      status, written := SpiFlashWrite(baseAddress, bufferSize, buffer, pos);
      if status != Success {
        return;
      }
      status := InternalCompareBlock(baseAddress, buffer, pos);
    }

    // One turn of the loop of lines 437-461.
    method UpdateBlock(address: nat, buffer: array<byte>, pos: nat, size: nat, ghost m: seq<byte>, ghost block: seq<byte>, ghost plan: seq<Command>)
      returns (status: Status)
      requires Valid() && areaBase <= address && address - areaBase + BLOCK_SIZE <= mem.Length && size == BLOCK_SIZE
      requires buffer != mem && pos + BLOCK_SIZE <= buffer.Length
      requires mem[..] == m && buffer[pos..pos + BLOCK_SIZE] == block
      requires var a := address - areaBase;
               plan == if m[a..a + BLOCK_SIZE] == block then [] else [Erase(a), Program(a, block)]
      modifies this`commands, this`log, this`allocations, mem
      ensures Valid() && SameOutside(m, mem[..], address - areaBase)
      ensures status == Success ==> mem[address - areaBase..address - areaBase + BLOCK_SIZE] == block
      ensures allocates(old(allocations)) ==>
                && old(log) <= log <= old(log) + plan
                && (status == Success ==> log == old(log) + plan)
                && (plan == [] ==> status == Success && mem[..] == m)
    {
      ghost var a := address - areaBase;
      var equal := InternalCompareBlock(address, buffer, pos);
      if equal == Success {
        return Success;
      }
      ghost var l0 := log;
      status := InternalEraseBlock(address);
      assert l0 + [Erase(a)] + [Program(a, block)] == l0 + [Erase(a), Program(a, block)];
      if status != Success {
        return;
      }
      OneProgram(a, block);
      status := InternalWriteBlock(address, buffer, pos, size);
    }

    // PerformFlashWriteWithProgress. `at` is the number of blocks that were finished. A relative address
    // counts from the firmware image in memory, an absolute one stands for itself.
    method PerformFlashWrite(flashAddress: nat, relative: bool, buffer: array<byte>, length: nat) returns (status: Status, ghost at: nat)
      requires Valid() && length <= buffer.Length && buffer != mem
      requires areaBase <= flashAddress + (if relative then internalFdAddress else 0)
      requires flashAddress + (if relative then internalFdAddress else 0) - areaBase + length / BLOCK_SIZE * BLOCK_SIZE <= mem.Length
      modifies this`commands, this`log, this`allocations, mem
      ensures Valid() && at <= length / BLOCK_SIZE
      ensures var (a, n) := (flashAddress + (if relative then internalFdAddress else 0) - areaBase, length / BLOCK_SIZE);
              && (status == Success ==> at == n && WrittenUpTo(mem[..], old(mem[..]), a, buffer[..], n, 0))
              && (status != Success ==> at < n && WrittenUpTo(mem[..], old(mem[..]), a, buffer[..], at, BLOCK_SIZE))
      ensures AlwaysAllocates() ==>
                var a := flashAddress + (if relative then internalFdAddress else 0) - areaBase;
                var plan := Plan(old(mem[..]), a, buffer[..], length / BLOCK_SIZE);
                && old(log) <= log <= old(log) + plan
                && (status == Success ==> log == old(log) + plan)
                && (plan == [] ==> status == Success && mem[..] == old(mem[..]))
    {
      var from := flashAddress;
      if relative {
        from := from + internalFdAddress;
      }
      var countOfBlocks := length / BLOCK_SIZE;
      var address := from;
      ghost var (a, m0, b) := (address - areaBase, mem[..], buffer[..]);
      ghost var plan := PlanByBlocks(m0, a, b, countOfBlocks);
      status, at := UpdateBlocks(address, buffer, length, countOfBlocks, a, m0, b, plan);
    }

    ghost predicate AlwaysAllocates() { forall k :: allocates(k) }

    // The loop of lines 432-473.
    method UpdateBlocks(start: nat, buffer: array<byte>, length: nat, countOfBlocks: nat, ghost a: nat, ghost m0: seq<byte>, ghost b: seq<byte>,
                        ghost plan: nat -> seq<Command>)
      returns (status: Status, ghost at: nat)
      requires Valid() && buffer != mem && buffer[..] == b && mem[..] == m0
      requires countOfBlocks * BLOCK_SIZE <= length
      requires areaBase <= start && a == start - areaBase && IsPlan(m0, a, b, countOfBlocks, plan)
      modifies this`commands, this`log, this`allocations, mem
      ensures Valid() && at <= countOfBlocks
      ensures status == Success ==> at == countOfBlocks && WrittenUpTo(mem[..], m0, a, b, countOfBlocks, 0)
      ensures status != Success ==> at < countOfBlocks && WrittenUpTo(mem[..], m0, a, b, at, BLOCK_SIZE)
      ensures AlwaysAllocates() ==>
                && old(log) <= log <= old(log) + plan(countOfBlocks)
                && (status == Success ==> log == old(log) + plan(countOfBlocks))
                && (plan(countOfBlocks) == [] ==> status == Success && mem[..] == m0)
    {
      var (address, buf, index, remaining) := (start, 0, 0, length);
      ghost var l0 := log;
      status, at := Success, 0;
      while index < countOfBlocks
        invariant 0 <= index <= countOfBlocks && at == index && status == Success && Valid()
        invariant address == start + index * BLOCK_SIZE && buf == index * BLOCK_SIZE
        invariant remaining == length - index * BLOCK_SIZE
        invariant buffer[..] == b && WrittenUpTo(mem[..], m0, a, b, index, 0)
        invariant AlwaysAllocates() ==> log == l0 + plan(index) && (plan(index) == [] ==> mem[..] == m0)
      {
        var size := if remaining > BLOCK_SIZE then BLOCK_SIZE else remaining;
        status := UpdateNext(address, buffer, buf, size, index, countOfBlocks, a, m0, b, plan, l0);
        if status != Success {
          return;
        }
        address := address + BLOCK_SIZE;
        buf := buf + BLOCK_SIZE;
        remaining := if remaining > BLOCK_SIZE then remaining - BLOCK_SIZE else 0;
        index := index + 1;
        at := index;
      }
    }

    method UpdateNext(address: nat, buffer: array<byte>, buf: nat, size: nat, ghost i: nat, ghost n: nat, ghost a: nat, ghost m0: seq<byte>,
                      ghost b: seq<byte>, ghost plan: nat -> seq<Command>, ghost l0: seq<Command>)
      returns (status: Status)
      requires Valid() && buffer != mem && buffer[..] == b && i < n && IsPlan(m0, a, b, n, plan) && size == BLOCK_SIZE
      requires areaBase <= address && address - areaBase == a + i * BLOCK_SIZE && buf == i * BLOCK_SIZE
      requires WrittenUpTo(mem[..], m0, a, b, i, 0)
      requires AlwaysAllocates() ==> log == l0 + plan(i) && (plan(i) == [] ==> mem[..] == m0)
      modifies this`commands, this`log, this`allocations, mem
      ensures Valid()
      ensures WrittenUpTo(mem[..], m0, a, b, i, BLOCK_SIZE)
      ensures status == Success ==> WrittenUpTo(mem[..], m0, a, b, i + 1, 0)
      ensures AlwaysAllocates() && status == Success ==>
                log == l0 + plan(i + 1) && (plan(i + 1) == [] ==> mem[..] == m0)
      ensures AlwaysAllocates() ==> l0 <= log <= l0 + plan(n) && (plan(n) == [] ==> status == Success)
    {
      ghost var (m, l, block) := (mem[..], log, b[buf..buf + BLOCK_SIZE]);
      ghost var todo := if m[a + buf..a + buf + BLOCK_SIZE] == block then [] else [Erase(a + buf), Program(a + buf, block)];
      assert buffer[buf..buf + BLOCK_SIZE] == block;
      ghost var always := AlwaysAllocates();
      assert always ==> allocates(allocations);
      status := UpdateBlock(address, buffer, buf, size, m, block, todo);
      BlockWritten(mem[..], m, m0, a, b, i, status == Success);
      if always {
        assert todo == BlockPlan(m0, a, b, i);
        PlanGrows(m0, a, b, n, plan, i + 1);
        LogStep(plan(i), todo, plan(n), l0, log);
      }
    }
  }

  // Two memories that differ at most in the block at offset a.
  ghost predicate SameOutside(m: seq<byte>, m': seq<byte>, a: nat) {
    && |m| == |m'| && a + BLOCK_SIZE <= |m|
    && m[..a] == m'[..a] && m[a + BLOCK_SIZE..] == m'[a + BLOCK_SIZE..]
  }

  lemma OneErase(a: nat)
    ensures Erases(a, BLOCK_SIZE) == [Erase(a)]
  {
    assert Erases(a + BLOCK_SIZE, 0) == [];
  }

  lemma OneProgram(a: nat, block: seq<byte>)
    requires |block| == BLOCK_SIZE
    ensures Programs(a, block) == [Program(a, block)]
  {
    assert block[..BLOCK_SIZE] == block && block[BLOCK_SIZE..] == [];
    assert Programs(a + BLOCK_SIZE, []) == [];
  }

  lemma LogStep(p: seq<Command>, plan: seq<Command>, full: seq<Command>, l0: seq<Command>, l': seq<Command>)
    requires p + plan <= full && l0 + p <= l' <= l0 + p + plan
    ensures l0 <= l' <= l0 + full
    ensures l' == l0 + p + plan ==> l' == l0 + (p + plan)
    ensures full == [] ==> plan == [] && p == []
  {
    assert l0 + p + plan == l0 + (p + plan);
    Prefixes(l0, p + plan, full, l');
  }

  lemma Prefixes(a: seq<Command>, p: seq<Command>, q: seq<Command>, s: seq<Command>)
    requires p <= q && s <= a + p && |a| <= |s|
    ensures a <= s <= a + q
  {
    assert (a + p)[..|a|] == a && (a + q)[..|a| + |p|] == a + p;
  }

  // From m to m' in block i.
  lemma BlockWritten(m': seq<byte>, m: seq<byte>, m0: seq<byte>, a: nat, b: seq<byte>, i: nat, good: bool)
    requires WrittenUpTo(m, m0, a, b, i, 0) && a + (i + 1) * BLOCK_SIZE <= |m| && (i + 1) * BLOCK_SIZE <= |b|
    requires SameOutside(m, m', a + i * BLOCK_SIZE)
    requires good ==> m'[a + i * BLOCK_SIZE..a + (i + 1) * BLOCK_SIZE] == b[i * BLOCK_SIZE..(i + 1) * BLOCK_SIZE]
    ensures WrittenUpTo(m', m0, a, b, i, BLOCK_SIZE)
    ensures good ==> WrittenUpTo(m', m0, a, b, i + 1, 0)
    ensures m[a + i * BLOCK_SIZE..a + (i + 1) * BLOCK_SIZE] == m0[a + i * BLOCK_SIZE..a + (i + 1) * BLOCK_SIZE]
  {
    var (k, e) := (a + i * BLOCK_SIZE, a + (i + 1) * BLOCK_SIZE);
    assert m'[..a] == m'[..k][..a] == m[..k][..a] == m[..a];
    assert m'[a..k] == m'[..k][a..] == m[..k][a..] == m[a..k];
    assert m[e..] == m[k..][BLOCK_SIZE..] == m0[k..][BLOCK_SIZE..] == m0[e..];
    assert m[k..e] == m[k..][..BLOCK_SIZE] == m0[k..][..BLOCK_SIZE] == m0[k..e];
    if good {
      assert m'[a..e] == m'[a..k] + m'[k..e];
      assert b[..(i + 1) * BLOCK_SIZE] == b[..i * BLOCK_SIZE] + b[i * BLOCK_SIZE..(i + 1) * BLOCK_SIZE];
    }
  }

  // A range that holds the buffer after one call needs no command in the next.
  lemma SecondCallHasNoPlan(m: seq<byte>, m0: seq<byte>, a: nat, b: seq<byte>, n: nat)
    requires WrittenUpTo(m, m0, a, b, n, 0)
    ensures Plan(m, a, b, n) == []
  {
    NothingToDo(m, a, b, n);
  }
}
