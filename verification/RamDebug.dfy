/** Library/RamDebugLib/RamDebugLib.c: a log of NUL-terminated records in a fixed piece of
    memory, where the oldest records make room for new ones. */
module RamDebug {
  import opened Bytes

  const RAM_DEBUG_HEADER_ID := 0x50444D52
  const DEBUG_PRINT_BUFFER_DFT_VALUE: byte := 0xCC

  // ----- what the log is meant to hold

  predicate NulFree(m: seq<byte>) { forall i :: 0 <= i < |m| ==> m[i] != 0 }

  // The bytes that the records take, and the records one after the other.
  function Size(h: seq<seq<byte>>): nat {
    if h == [] then 0 else |h[0]| + 1 + Size(h[1..])
  }

  function Flat(h: seq<seq<byte>>): (s: seq<byte>)
    ensures |s| == Size(h)
  {
    if h == [] then [] else h[0] + [0] + Flat(h[1..])
  }

  // The longest suffix of the history that fits into n bytes.
  function LongestSuffix(h: seq<seq<byte>>, n: nat): seq<seq<byte>> {
    if Size(h) <= n then h else LongestSuffix(h[1..], n)
  }

  // It is a suffix, it fits, and one record more would not fit.
  lemma {:induction false} LongestSuffixMeaning(h: seq<seq<byte>>, n: nat)
    ensures var r := LongestSuffix(h, n);
            && |r| <= |h| && r == h[|h| - |r|..] && Size(r) <= n
            && (|r| < |h| ==> Size(h[|h| - |r| - 1..]) > n)
  {
    if Size(h) > n {
      LongestSuffixMeaning(h[1..], n);
      var r := LongestSuffix(h, n);
      var k := |h| - |r|;
      assert h[1..][k - 1..] == h[k..];
      if k > 1 {
        assert h[1..][k - 2..] == h[k - 1..];
      } else {
        assert h[0..] == h;
      }
    }
  }

  // The oldest records dropped until `need` more bytes fit.
  function DropUntil(r: seq<seq<byte>>, need: nat, n: nat): seq<seq<byte>>
    requires need <= n
  {
    if Size(r) + need <= n then r else DropUntil(r[1..], need, n)
  }

  lemma {:induction false} SizeSnoc(h: seq<seq<byte>>, m: seq<byte>)
    ensures Size(h + [m]) == Size(h) + |m| + 1
    ensures Flat(h + [m]) == Flat(h) + m + [0]
  {
    if h == [] {
      assert h + [m] == [m] && [m][1..] == [];
      assert Size([m]) == |m| + 1 + Size([]);
      assert Flat([m]) == m + [0] + Flat([]);
    } else {
      var (first, rest) := (h[0] + [0], h[1..]);
      SizeSnoc(rest, m);
      assert (h + [m])[1..] == rest + [m];
      assert Size(h + [m]) == |h[0]| + 1 + Size(rest + [m]);
      assert Flat(h + [m]) == first + Flat(rest + [m]);
      assert first + (Flat(rest) + m + [0]) == first + Flat(rest) + m + [0];
    }
  }

  // Making room and appending gives the longest suffix of the longer history again.
  lemma {:induction false} SuffixAfterPrint(h: seq<seq<byte>>, m: seq<byte>, n: nat)
    requires |m| + 1 <= n
    ensures LongestSuffix(h + [m], n) == DropUntil(LongestSuffix(h, n), |m| + 1, n) + [m]
  {
    SizeSnoc(h, m);
    if h == [] {
      assert h + [m] == [m] && Size([m]) == |m| + 1;
    } else {
      assert (h + [m])[1..] == h[1..] + [m];
      SuffixAfterPrint(h[1..], m, n);
      if Size(h) <= n {
        assert LongestSuffix(h[1..], n) == h[1..];
      }
    }
  }

  // The variables of the loop that looks for room, after k turns: the bytes passed over and the
  // bytes that are free then.
  function OffsetAfter(r: seq<seq<byte>>, k: nat): nat
    requires k <= |r|
  {
    Size(r[..k])
  }

  function RemainedAfter(r: seq<seq<byte>>, n: nat, k: nat): int
    requires k <= |r|
  {
    n - Size(r) + OffsetAfter(r, k)
  }

  // The guard of line 234 lets a string of exactly n bytes pass. With its terminator it fits no
  // log: the loop passes over every record, stands at LatestIndex and still looks for room. With
  // any shorter string it ends among the records.
  lemma ScanEndsIff(r: seq<seq<byte>>, m: seq<byte>, n: nat)
    requires Size(r) <= n
    ensures (exists k :: 0 <= k <= |r| && RemainedAfter(r, n, k) >= |m| + 1) <==> |m| + 1 <= n
    ensures OffsetAfter(r, |r|) == Size(r) && RemainedAfter(r, n, |r|) == n
    ensures |m| == n ==> forall k :: 0 <= k <= |r| ==> RemainedAfter(r, n, k) < |m| + 1
  {
    forall k: nat | k <= |r| ensures RemainedAfter(r, n, k) <= n {
      SizeSplit(r, k);
    }
    assert r[..|r|] == r;
    assert RemainedAfter(r, n, |r|) == n;
  }

  // ----- the memory

  class RamDebugLog {
    var sig: nat
    var latestIdx: nat
    const buf: array<byte>
    // Everything printed since the log was set up, and the part of it that is in the buffer.
    ghost var history: seq<seq<byte>>
    ghost var records: seq<seq<byte>>

    // Two lengths must not overflow a UINT32 when they are added.
    ghost predicate Valid()
      reads this, buf
    {
      && buf.Length < 0x8000_0000
      && (sig == RAM_DEBUG_HEADER_ID ==>
            && (forall m :: m in history ==> NulFree(m))
            && records == LongestSuffix(history, buf.Length)
            && Holds(records))
    }

    // The buffer holds the records and behind them only the default value.
    ghost predicate Holds(r: seq<seq<byte>>)
      reads this, buf
    {
      latestIdx == Size(r) <= buf.Length && Layout(buf[..], r)
    }

    // The memory as it is found before the first log entry.
    constructor (size: nat, sig: nat)
      requires size < 0x8000_0000 && sig != RAM_DEBUG_HEADER_ID
      ensures Valid() && buf.Length == size && this.sig == sig && fresh(buf)
    {
      this.sig, latestIdx := sig, 0;
      buf := new byte[size];
      history, records := [], [];
    }

    // RamDebugGetLatestIndex
    method GetLatestIndex() returns (latestIndex: nat)
      requires Valid()
      modifies this, buf
      ensures Valid() && sig == RAM_DEBUG_HEADER_ID && latestIndex == latestIdx
      ensures history == if old(sig) == RAM_DEBUG_HEADER_ID then old(history) else []
    {
      if sig != RAM_DEBUG_HEADER_ID {
        sig := RAM_DEBUG_HEADER_ID;
        latestIdx := 0;
        history, records := [], [];
        FillDefault(0);
        assert LongestSuffix([], buf.Length) == [];
      }
      latestIndex := latestIdx;
    }

    // The loops that write the default value from an index to the end.
    method FillDefault(from: nat)
      requires from <= buf.Length
      modifies buf
      ensures buf[..from] == old(buf[..from])
      ensures forall k :: from <= k < buf.Length ==> buf[k] == DEBUG_PRINT_BUFFER_DFT_VALUE
    {
      var index := from;
      while index < buf.Length
        invariant from <= index <= buf.Length
        invariant buf[..from] == old(buf[..from])
        invariant forall k :: from <= k < index ==> buf[k] == DEBUG_PRINT_BUFFER_DFT_VALUE
      {
        buf[index] := DEBUG_PRINT_BUFFER_DFT_VALUE;
        index := index + 1;
      }
    }

    // RamDebugGetRecordSize: bytes are read until a NUL, which must be there.
    method GetRecordSize(addr: nat, ghost m: seq<byte>) returns (recordSize: nat)
      requires NulFree(m) && addr + |m| + 1 <= buf.Length && buf[addr..addr + |m| + 1] == m + [0]
      ensures recordSize == |m| + 1
    {
      recordSize := 0;
      var value: byte := buf[addr];
      ghost var s := buf[addr..addr + |m| + 1];
      assert value == s[0];
      recordSize := 1;
      while value != 0
        invariant 1 <= recordSize <= |m| + 1
        invariant value == s[recordSize - 1]
        decreases |m| + 1 - recordSize
      {
        value := buf[addr + recordSize];
        assert value == s[recordSize];
        recordSize := recordSize + 1;
      }
    }

    // RamDebugCleanUp: the oldest records that have to go are counted, the others are moved to
    // the front, and the rest of the buffer is reset.
    method CleanUp(newRecordLength: nat, latestIndex: nat) returns (newIndex: nat)
      requires Valid() && sig == RAM_DEBUG_HEADER_ID && latestIndex == latestIdx
      requires newRecordLength <= buf.Length
      modifies buf
      ensures newIndex == Size(DropUntil(records, newRecordLength, buf.Length))
      ensures newIndex + newRecordLength <= buf.Length
      ensures Layout(buf[..], DropUntil(records, newRecordLength, buf.Length))
    {
      ghost var rest := DropUntil(records, newRecordLength, buf.Length);
      ghost var turns;
      var recordOffset;
      recordOffset, turns := CountDropped(newRecordLength, latestIndex);
      newIndex := latestIndex - recordOffset;
      MoveForward(recordOffset, newIndex);
      assert buf[..newIndex] == Flat(rest);
      FillDefault(newIndex);
    }

    // Lines 177-187. The loop ends after `turns` records.
    method CountDropped(newRecordLength: nat, latestIndex: nat) returns (recordOffset: nat, ghost turns: nat)
      requires Valid() && sig == RAM_DEBUG_HEADER_ID && latestIndex == latestIdx
      requires newRecordLength <= buf.Length
      ensures var rest := DropUntil(records, newRecordLength, buf.Length);
              && recordOffset + Size(rest) == latestIndex
              && Size(rest) + newRecordLength <= buf.Length
              && buf[recordOffset..latestIndex] == Flat(rest)
      ensures turns <= |records| && recordOffset == OffsetAfter(records, turns)
    {
      recordOffset := 0;
      var remainedSize := buf.Length - latestIndex;
      ghost var (rest, goal) := (records, DropUntil(records, newRecordLength, buf.Length));
      turns := 0;
      SuffixNulFree(history, buf.Length);
      while remainedSize < newRecordLength
        invariant recordOffset + Size(rest) == latestIndex
        invariant remainedSize == buf.Length - Size(rest)
        invariant turns <= |records| && rest == records[turns..] && AllNulFree(rest)
        invariant recordOffset == OffsetAfter(records, turns)
        invariant buf[recordOffset..latestIndex] == Flat(rest)
        invariant DropUntil(rest, newRecordLength, buf.Length) == goal
        decreases |rest|
      {
        ScanTurn(buf[..], records, turns, rest, recordOffset, latestIndex, newRecordLength, buf.Length);
        assert buf[..][recordOffset..recordOffset + |rest[0]| + 1] == buf[recordOffset..recordOffset + |rest[0]| + 1];
        var recordSize := GetRecordSize(recordOffset, rest[0]);
        assert buf[..][recordOffset + recordSize..latestIndex] == buf[recordOffset + recordSize..latestIndex];
        recordOffset := recordOffset + recordSize;
        remainedSize := remainedSize + recordSize;
        rest, turns := rest[1..], turns + 1;
      }
    }

    method MoveForward(recordOffset: nat, count: nat)
      requires recordOffset + count <= buf.Length
      modifies buf
      ensures buf[..count] == old(buf[recordOffset..recordOffset + count])
    {
      ghost var was := buf[..];
      var index := 0;
      while index < count
        invariant 0 <= index <= count
        invariant forall k :: 0 <= k < index ==> buf[k] == was[recordOffset + k]
        invariant forall k :: index <= k < buf.Length ==> buf[k] == was[k]
      {
        buf[index] := buf[recordOffset + index];
        index := index + 1;
      }
      assert buf[..count] == was[recordOffset..recordOffset + count];
    }

    // RamDebugPrint. A string of exactly the size of the buffer is outside the contract.
    method Print(buffer: array<byte>, bufferSize: nat)
      requires Valid() && buffer != buf
      requires bufferSize < buffer.Length && NulFree(buffer[..bufferSize]) && buffer[bufferSize] == 0
      requires bufferSize != buf.Length
      modifies this, buf
      ensures Valid()
      ensures bufferSize > buf.Length ==> unchanged(this) && unchanged(buf)
      ensures bufferSize < buf.Length ==>
                && sig == RAM_DEBUG_HEADER_ID
                && history == (if old(sig) == RAM_DEBUG_HEADER_ID then old(history) else []) + [buffer[..bufferSize]]
                && latestIdx == Size(LongestSuffix(history, buf.Length))
                && Layout(buf[..], LongestSuffix(history, buf.Length))
    {
      if bufferSize > buf.Length {
        return;
      }
      ghost var m := buffer[..bufferSize];
      var latestIndex := GetLatestIndex();
      var tempBufferSize := bufferSize + 1;
      ghost var kept := DropUntil(records, tempBufferSize, buf.Length);
      if latestIndex + tempBufferSize > buf.Length {
        latestIndex := CleanUp(tempBufferSize, latestIndex);
      }
      if latestIndex + tempBufferSize <= buf.Length {
        Append(buffer, tempBufferSize, latestIndex, kept, m);
        latestIdx := latestIndex + tempBufferSize;
        SuffixAfterPrint(history, m, buf.Length);
        SizeSnoc(kept, m);
        history, records := history + [m], kept + [m];
      }
    }

    method Append(buffer: array<byte>, count: nat, latestIndex: nat, ghost kept: seq<seq<byte>>, ghost m: seq<byte>)
      requires buffer != buf && count <= buffer.Length && latestIndex + count <= buf.Length
      requires buffer[..count] == m + [0] && latestIndex == Size(kept) && Layout(buf[..], kept)
      modifies buf
      ensures Layout(buf[..], kept + [m])
    {
      ghost var src := buffer[..count];
      var i := 0;
      while i < count
        invariant 0 <= i <= count
        invariant buffer[..count] == src
        invariant buf[..latestIndex] == old(buf[..latestIndex])
        invariant buf[latestIndex..latestIndex + i] == src[..i]
        invariant forall k :: latestIndex + i <= k < buf.Length ==> buf[k] == DEBUG_PRINT_BUFFER_DFT_VALUE
      {
        buf[latestIndex + i] := buffer[i];
        assert buf[latestIndex..latestIndex + i + 1] == buf[latestIndex..latestIndex + i] + [src[i]];
        i := i + 1;
      }
      assert buf[..][latestIndex..latestIndex + count] == src && buf[..][..latestIndex] == old(buf[..latestIndex]);
      LaidBehind(old(buf[..]), buf[..], kept, m);
    }
  }

  lemma LaidBehind(before: seq<byte>, s: seq<byte>, r: seq<seq<byte>>, m: seq<byte>)
    requires Layout(before, r) && Size(r) + |m| + 1 <= |s| && s[..Size(r)] == before[..Size(r)]
    requires s[Size(r)..Size(r) + |m| + 1] == m + [0]
    requires forall k :: Size(r) + |m| + 1 <= k < |s| ==> s[k] == DEBUG_PRINT_BUFFER_DFT_VALUE
    ensures Layout(s, r + [m])
  {
    SizeSnoc(r, m);
    BytesBehind(s, Flat(r), m + [0]);
    assert Flat(r) + (m + [0]) == Flat(r) + m + [0];
  }

  lemma BytesBehind(s: seq<byte>, f: seq<byte>, g: seq<byte>)
    requires |f| + |g| <= |s| && s[..|f|] == f && s[|f|..|f| + |g|] == g
    ensures s[..|f| + |g|] == f + g
  {
    assert s[..|f| + |g|] == s[..|f|] + s[|f|..|f| + |g|];
  }

  lemma {:induction false} SizeSplit(r: seq<seq<byte>>, k: nat)
    requires k <= |r|
    ensures Size(r[..k]) + Size(r[k..]) == Size(r)
  {
    if k > 0 {
      SizeSplit(r[1..], k - 1);
      assert r[..k][1..] == r[1..][..k - 1] && r[1..][k - 1..] == r[k..];
    } else {
      assert r[k..] == r;
    }
  }

  // One turn of the loop that looks for room, at record k.
  lemma ScanTurn(s: seq<byte>, r: seq<seq<byte>>, k: nat, rest: seq<seq<byte>>, from: nat, to: nat, need: nat, n: nat)
    requires k <= |r| && rest == r[k..] && AllNulFree(rest) && from == OffsetAfter(r, k)
    requires from <= to <= |s| && s[from..to] == Flat(rest) && need <= n < Size(rest) + need
    ensures k < |r| && rest[0] == r[k] && rest[1..] == r[k + 1..] && NulFree(rest[0]) && AllNulFree(rest[1..])
    ensures var next := from + |rest[0]| + 1;
            && next <= to && s[from..next] == rest[0] + [0] && s[next..to] == Flat(rest[1..])
            && next == OffsetAfter(r, k + 1)
    ensures Size(rest) == |rest[0]| + 1 + Size(rest[1..]) && DropUntil(rest, need, n) == DropUntil(rest[1..], need, n)
  {
    DropOne(rest, need, n);
    FirstRecord(s, from, to, rest);
    assert r[..k + 1] == r[..k] + [r[k]];
    SizeSnoc(r[..k], r[k]);
  }

  predicate AllNulFree(r: seq<seq<byte>>) { forall k :: 0 <= k < |r| ==> NulFree(r[k]) }

  lemma SuffixNulFree(h: seq<seq<byte>>, n: nat)
    requires forall m :: m in h ==> NulFree(m)
    ensures AllNulFree(LongestSuffix(h, n))
  {
    LongestSuffixMeaning(h, n);
  }

  lemma DropOne(r: seq<seq<byte>>, need: nat, n: nat)
    requires need <= n < Size(r) + need
    ensures r != [] && Size(r) == |r[0]| + 1 + Size(r[1..])
    ensures DropUntil(r, need, n) == DropUntil(r[1..], need, n)
  {
  }

  lemma FirstRecord(s: seq<byte>, from: nat, to: nat, r: seq<seq<byte>>)
    requires from <= to <= |s| && r != [] && s[from..to] == Flat(r)
    ensures var next := from + |r[0]| + 1;
            next <= to && s[from..next] == r[0] + [0] && s[next..to] == Flat(r[1..])
  {
    var t := s[from..to];
    assert t == r[0] + [0] + Flat(r[1..]);
    assert s[from..from + |r[0]| + 1] == t[..|r[0]| + 1];
    assert s[from + |r[0]| + 1..to] == t[|r[0]| + 1..];
  }

  ghost predicate Layout(s: seq<byte>, r: seq<seq<byte>>) {
    && Size(r) <= |s|
    && s[..Size(r)] == Flat(r)
    && forall k :: Size(r) <= k < |s| ==> s[k] == DEBUG_PRINT_BUFFER_DFT_VALUE
  }
}
