/** The argument parser of Drivers/Dxe/UefiConsole/ConsoleParameters.c, with FindFirstCharacter
    and TrimSpaces of UefiConsole.c, on NUL-terminated strings in buffers that it edits in place. */
module Console {
  import opened Bytes
  import opened CStrings
  import opened ConsoleSpec
  import opened Sequences

  datatype Status = Success | InvalidParameter | NotFound

  // FindFirstCharacter
  method FindFirstCharacter(a: array<char>, p: nat, list: string, esc: char, ghost e: nat) returns (r: nat)
    requires CStr(a[..], p, e)
    ensures r == p + First(a[p..e], list, esc)
  {
    ghost var t := a[p..e];
    var n := StrLen(a, p, e);
    var walkStr := 0;
    while walkStr < n
      invariant 0 <= walkStr <= n + 1
      invariant First(t, list, esc) == if walkStr <= n then walkStr + First(t[walkStr..], list, esc) else n
    {
      assert a[p + walkStr] == t[walkStr..][0];
      if a[p + walkStr] == esc {
        assert walkStr + 1 < n ==> t[walkStr..][2..] == t[walkStr + 2..];
        walkStr := walkStr + 2;
      } else {
        if a[p + walkStr] in list {
          return p + walkStr;
        }
        assert t[walkStr..][1..] == t[walkStr + 1..];
        walkStr := walkStr + 1;
      }
    }
    r := p + n;
  }

  // FindEndOfParameter
  method FindEndOfParameter(a: array<char>, p: nat, ghost e: nat) returns (r: Option<nat>)
    requires CStr(a[..], p, e)
    ensures r == Shifted(p, EndOf(a[p..e]))
  {
    FindIsFind();
    EndOfAllIsEnd(Find());
    r := FindEndBy(a, p, Find(), EndOfAll(Find()), e, a[p..e]);
  }

  method FindEndBy(a: array<char>, p: nat, ghost find: (string, string) -> nat, ghost end: string -> Option<nat>, ghost e: nat, ghost t: string)
    returns (r: Option<nat>)
    requires CStr(a[..], p, e) && IsFind(find) && IsEnd(find, end) && a[p..e] == t
    ensures r == Shifted(p, end(t))
    decreases e - p, 0
  {
    var first := FindBy(a, p, SPACE_QUOTE, find, e, t);
    if a[first] == NUL {
      return Some(first);
    }
    if a[first] == ' ' {
      return Some(first);
    }
    ghost var rest := t[first - p + 1..];
    assert a[first + 1..e] == rest;
    r := FindEndBehindQuote(a, first + 1, find, end, e, rest);
  }

  // The second half: the quote that closes, and what follows it.
  method FindEndBehindQuote(a: array<char>, q: nat, ghost find: (string, string) -> nat, ghost end: string -> Option<nat>,
                            ghost e: nat, ghost rest: string)
    returns (r: Option<nat>)
    requires CStr(a[..], q, e) && IsFind(find) && IsEnd(find, end) && a[q..e] == rest
    ensures r == Shifted(q, BehindQuote(find, end, rest))
    decreases e - q, 1
  {
    var closeQuote := FindBy(a, q, QUOTE, find, e, rest);
    if a[closeQuote] == NUL {
      return None;
    }
    ghost var tail := rest[closeQuote - q + 1..];
    assert a[closeQuote + 1..e] == tail;
    r := FindEndBy(a, closeQuote + 1, find, end, e, tail);
  }

  method FindBy(a: array<char>, p: nat, list: string, ghost find: (string, string) -> nat, ghost e: nat, ghost t: string)
    returns (r: nat)
    requires CStr(a[..], p, e) && IsFind(find) && a[p..e] == t
    ensures p <= r <= e && r == p + find(t, list)
  {
    r := FindFirstCharacter(a, p, list, '^', e);
  }

  // CopyMem (NextDelim, NextDelim + 1, StrSize (NextDelim + 1)): one character goes, the
  // terminator moves with the rest.
  method DeleteAt(a: array<char>, d: nat, ghost e: nat, ghost was: seq<char>)
    requires d < e && CStr(a[..], d + 1, e) && a[..] == was
    modifies a
    ensures forall k :: 0 <= k < d || e <= k < a.Length ==> a[k] == was[k]
    ensures forall k :: d <= k < e ==> a[k] == was[k + 1]
    ensures CStr(a[..], d, e - 1)
  {
    var n := StrLen(a, d + 1, e);
    n := n + 1;
    var i := 0;
    while i < n
      invariant 0 <= i <= n
      invariant forall k :: d <= k < d + i ==> a[k] == was[k + 1]
      invariant forall k :: 0 <= k < d || d + i <= k < a.Length ==> a[k] == was[k]
    {
      a[d + i] := a[d + i + 1];
      i := i + 1;
    }
  }

  // ----- one parameter

  // The characters before the first quote or escape character stay as they are.
  lemma {:induction false} PlainPrefix(t: string, strip: bool, list: string)
    requires NUL !in t && forall c :: c in list <==> c == '"' || c == '^'
    ensures var r := First(t, list, NUL);
            && Unescaped(t, strip) == t[..r] + Unescaped(t[r..], strip)
            && (r < |t| ==> t[r] == '"' || t[r] == '^')
  {
    if t != [] && t[0] !in list {
      PlainPrefix(t[1..], strip, list);
      FirstStep(t, list);
      PlainStep(t, strip, First(t[1..], list, NUL));
    }
  }

  lemma FirstStep(t: string, list: string)
    requires t != [] && t[0] != NUL && t[0] !in list
    ensures First(t, list, NUL) == First(t[1..], list, NUL) + 1
  {
  }

  lemma PlainStep(t: string, strip: bool, r: nat)
    requires t != [] && t[0] != '"' && t[0] != '^' && r <= |t| - 1
    ensures Unescaped(t, strip) == [t[0]] + Unescaped(t[1..], strip)
    ensures t[..r + 1] == [t[0]] + t[1..][..r] && t[r + 1..] == t[1..][r..]
  {
  }

  // Lines 142-167: escape characters and quotes are removed in place.
  method RemoveEscapes(temp: array<char>, strip: bool, ghost e: nat)
    requires CStr(temp[..], 0, e)
    modifies temp
    ensures Holds(temp[..], Unescaped(old(temp[..e]), strip))
  {
    ghost var goal := Unescaped(temp[..e], strip);
    ghost var end: nat := e;
    var nextDelim := NextDelim(temp, 0, strip, end, goal);
    while temp[nextDelim] != NUL
      invariant Progress(temp[..], nextDelim, strip, end, goal)
      invariant nextDelim < end ==> temp[nextDelim] == '"' || temp[nextDelim] == '^'
      decreases end + 1 - nextDelim
    {
      var removed;
      nextDelim, removed := RemoveOne(temp, nextDelim, strip, end, goal);
      if removed {
        end := end - 1;
      }
      nextDelim := NextDelim(temp, nextDelim, strip, end, goal);
    }
  }

  // One turn of the loop before the next search.
  method RemoveOne(temp: array<char>, d: nat, strip: bool, ghost end: nat, ghost goal: string) returns (d': nat, removed: bool)
    requires Progress(temp[..], d, strip, end, goal) && d < end
    requires temp[d] == '"' || temp[d] == '^'
    modifies temp
    ensures d <= d' && (removed || d < d')
    ensures Progress(temp[..], d', strip, if removed then end - 1 else end, goal)
  {
    if temp[d] == '^' {
      RemoveCaret(temp, d, strip, end, goal);
      return d + 1, true;
    }
    if strip {
      RemoveQuote(temp, d, end, goal);
      return d, true;
    }
    KeepQuote(temp[..end], d, goal);
    return d + 1, false;
  }

  // What is before d is final, and what is behind it still has to be done. Behind a last escape
  // character d is one past the terminator, where the old terminator still stands.
  ghost predicate Progress(s: seq<char>, d: nat, strip: bool, end: nat, goal: string) {
    && CStr(s, 0, end) && d <= end + 1
    && if d <= end then s[..d] + Unescaped(s[d..end], strip) == goal
       else d < |s| && s[d] == NUL && s[..end] == goal
  }

  method NextDelim(temp: array<char>, d: nat, strip: bool, ghost end: nat, ghost goal: string) returns (d': nat)
    requires Progress(temp[..], d, strip, end, goal)
    ensures d <= d' && Progress(temp[..], d', strip, end, goal)
    ensures d' < end ==> temp[d'] == '"' || temp[d'] == '^'
  {
    d' := FindFirstCharacter(temp, d, QUOTE_CARET, NUL, if d <= end then end else d);
    if d <= end {
      PlainSkipped(temp[..], d, strip, end, goal);
      assert temp[..][d..end] == temp[d..end];
    }
  }

  lemma PlainSkipped(s: seq<char>, d: nat, strip: bool, end: nat, goal: string)
    requires CStr(s, 0, end) && d <= end && s[..d] + Unescaped(s[d..end], strip) == goal
    ensures var d' := d + First(s[d..end], QUOTE_CARET, NUL);
            && s[..d'] + Unescaped(s[d'..end], strip) == goal
            && (d' < end ==> s[d'] == '"' || s[d'] == '^')
  {
    var (t, r) := (s[d..end], First(s[d..end], QUOTE_CARET, NUL));
    PlainPrefix(t, strip, QUOTE_CARET);
    TailOfSlice(s, d, end, r);
    MovedFront(s, d, end, r, Unescaped(t[r..], strip), goal);
  }

  lemma MovedFront(s: seq<char>, d: nat, end: nat, r: nat, u: string, goal: string)
    requires d + r <= end <= |s| && s[..d] + (s[d..end][..r] + u) == goal
    ensures s[..d + r] + u == goal
  {
    assert s[..d + r] == s[..d] + s[d..end][..r];
  }

  // The character behind the escape character is kept, whatever it is.
  method RemoveCaret(temp: array<char>, d: nat, strip: bool, ghost end: nat, ghost goal: string)
    requires CStr(temp[..], 0, end) && d < end && temp[d] == '^'
    requires temp[..d] + Unescaped(temp[d..end], strip) == goal
    modifies temp
    ensures Progress(temp[..], d + 1, strip, end - 1, goal)
  {
    ghost var (was, t) := (temp[..], temp[d..end]);
    DeleteAt(temp, d, end, was);
    assert temp[..d] == was[..d];
    assert temp[d..end - 1] == was[d + 1..end] == t[1..];
    if d < end - 1 {
      assert temp[d] == temp[d..end - 1][0] && temp[d + 1..end - 1] == t[1..][1..] == t[2..];
      assert temp[..d + 1] == temp[..d] + [t[1]];
      assert Unescaped(t, strip) == [t[1]] + Unescaped(t[2..], strip);
      assert temp[..d] + ([t[1]] + Unescaped(t[2..], strip)) == temp[..d] + [t[1]] + Unescaped(t[2..], strip);
    } else {
      assert t == ['^'] && Unescaped(t, strip) == [];
      assert temp[..d] + [] == temp[..d];
    }
  }

  method RemoveQuote(temp: array<char>, d: nat, ghost end: nat, ghost goal: string)
    requires CStr(temp[..], 0, end) && d < end && temp[d] == '"'
    requires temp[..d] + Unescaped(temp[d..end], true) == goal
    modifies temp
    ensures CStr(temp[..], 0, end - 1)
    ensures temp[..d] + Unescaped(temp[d..end - 1], true) == goal
  {
    ghost var (was, t) := (temp[..], temp[d..end]);
    DeleteAt(temp, d, end, was);
    assert temp[..d] == was[..d];
    assert temp[d..end - 1] == was[d + 1..end] == t[1..];
  }

  lemma KeepQuote(s: string, d: nat, goal: string)
    requires d < |s| && s[d] == '"' && s[..d] + Unescaped(s[d..], false) == goal
    ensures s[..d + 1] + Unescaped(s[d + 1..], false) == goal
  {
    assert s[d..][1..] == s[d + 1..];
    assert s[..d + 1] == s[..d] + ['"'];
  }

  // StrnCpyS
  method StrnCpyS(dst: array<char>, destMax: nat, src: array<char>, from: nat, n: nat, ghost e: nat)
    requires dst != src && CStr(src[..], from, e) && n <= e - from && n < destMax <= dst.Length
    modifies dst
    ensures CStr(dst[..], 0, n) && dst[..n] == src[from..from + n]
  {
    var i := 0;
    while i < n
      invariant 0 <= i <= n
      invariant dst[..i] == src[from..from + i]
    {
      dst[i] := src[from + i];
      i := i + 1;
    }
    dst[n] := NUL;
    forall i | 0 <= i < n ensures dst[i] != NUL {
      assert dst[..n][i] == src[from + i];
    }
  }

  // GetNextParameter. In a debug build the walker becomes NULL when there is an error.
  method GetNextParameter(line: array<char>, walker: nat, temp: array<char>, length: nat, strip: bool, debug: bool, ghost e: nat)
    returns (status: Status, walker': Option<nat>)
    requires line != temp && CStr(line[..], walker, e) && e - walker < length <= temp.Length
    modifies temp
    ensures match NextParam(line[walker..e])
            case NoMore => status == InvalidParameter && (walker'.Some? ==> walker' == Some(e))
            case Unbalanced => status == NotFound
            case Param(raw, rest) =>
              && status == Success && walker' == Some(e - |rest|) && line[e - |rest|..e] == rest
              && Holds(temp[..], Unescaped(raw, strip))
    ensures walker'.Some? ==> walker <= walker'.value <= e
  {
    ghost var t := line[walker..e];
    var w := SkipLeading(line, walker, e);
    ghost var u := line[w..e];
    var remaining := StrLen(line, w, e);
    if remaining == 0 {
      return InvalidParameter, if debug then None else Some(w);
    }
    var nextDelim := FindEndOfParameter(line, w, e);
    if nextDelim.None? {
      return NotFound, if debug then None else Some(w);
    }
    CutParameter(line, w, nextDelim.value - w, temp, length, strip, e);
    TailOfSlice(line[..], w, e, nextDelim.value - w);
    assert line[..][w..e] == u && line[..][nextDelim.value..e] == line[nextDelim.value..e];
    return Success, Some(nextDelim.value);
  }

  // Lines 127-167: the text up to the delimiter is copied and its escapes are removed.
  method CutParameter(line: array<char>, w: nat, n: nat, temp: array<char>, length: nat, strip: bool, ghost e: nat)
    requires line != temp && CStr(line[..], w, e) && n <= e - w < length <= temp.Length
    modifies temp
    ensures Holds(temp[..], Unescaped(line[w..e][..n], strip))
  {
    StrnCpyS(temp, length, line, w, n, e);
    if line[w + n] != NUL {
      temp[n] := NUL;
    }
    assert line[w..e][..n] == line[w..w + n] == temp[..n];
    RemoveEscapes(temp, strip, n);
  }

  method SkipLeading(line: array<char>, walker: nat, ghost e: nat) returns (w: nat)
    requires CStr(line[..], walker, e)
    ensures walker <= w <= e && line[w..e] == SkipSpaces(line[walker..e])
  {
    w := walker;
    while line[w] == ' '
      invariant walker <= w <= e
      invariant SkipSpaces(line[w..e]) == SkipSpaces(line[walker..e])
      decreases e - w
    {
      assert line[w..e][1..] == line[w + 1..e];
      w := w + 1;
    }
  }

  // ----- the whole line

  // TrimSpaces. The string moves to the front of its buffer one character at a time.
  method TrimSpaces(a: array<char>, ghost e: nat)
    requires CStr(a[..], 0, e)
    modifies a
    ensures Holds(a[..], Trimmed(old(a[..e])))
  {
    ghost var left := TrimmedLeft(a[..e]);
    TrimLeft(a, e, left);
    TrimRight(a, left);
  }

  method TrimLeft(a: array<char>, ghost e: nat, ghost left: string)
    requires CStr(a[..], 0, e) && left == TrimmedLeft(a[..e])
    modifies a
    ensures Holds(a[..], left)
  {
    ghost var end: nat := e;
    ghost var t := a[..e];
    while a[0] == ' ' || a[0] == '\t'
      invariant CStr(a[..], 0, end) && a[..end] == t && TrimmedLeft(t) == left
      decreases end
    {
      DropFirst(a, end, t);
      end := end - 1;
      t := t[1..];
    }
  }

  method DropFirst(a: array<char>, ghost e: nat, ghost t: string)
    requires CStr(a[..], 0, e) && e > 0 && a[..e] == t
    modifies a
    ensures CStr(a[..], 0, e - 1) && a[..e - 1] == t[1..]
    ensures Blank(old(a[0])) ==> TrimmedLeft(t) == TrimmedLeft(t[1..])
  {
    ghost var was := a[..];
    assert t[0] == a[0];
    DeleteAt(a, 0, e, was);
    assert a[..e - 1] == was[1..e];
    assert was[1..e] == t[1..];
  }

  method TrimRight(a: array<char>, ghost left: string)
    requires Holds(a[..], left)
    modifies a
    ensures Holds(a[..], TrimmedRight(left))
  {
    ghost var t := left;
    var n := StrLen(a, 0, |left|);
    while n > 0 && (a[n - 1] == ' ' || a[n - 1] == '\t')
      invariant Holds(a[..], t) && n == |t|
      invariant TrimmedRight(t) == TrimmedRight(left)
    {
      assert a[..n][n - 1] == a[n - 1];
      assert a[..n - 1] == t[..n - 1];
      a[n - 1] := NUL;
      n := n - 1;
      t := t[..n];
    }
    assert t != [] ==> a[..n][n - 1] == a[n - 1];
  }

  // One call of GetNextParameter inside a loop, seen from what is left of the line.
  method TakeParameter(line: array<char>, walker: nat, temp: array<char>, length: nat, strip: bool, debug: bool, ghost e: nat, ghost u: string)
    returns (status: Status, walker': Option<nat>, ghost raw: string, ghost rest: string)
    requires line != temp && CStr(line[..], walker, e) && e - walker < length <= temp.Length
    requires line[walker..e] == u && u != []
    modifies temp
    ensures status != Success ==> AllParams(u) == Params([], false)
    ensures status == Success ==>
              && walker'.Some? && walker < walker'.value <= e && line[walker'.value..e] == rest
              && AllParams(u) == Params([raw] + AllParams(rest).raws, AllParams(rest).complete)
              && Holds(temp[..], Unescaped(raw, strip))
  {
    status, walker' := GetNextParameter(line, walker, temp, length, strip, debug, e);
    raw, rest := [], [];
    if status == Success {
      raw, rest := NextParam(u).raw, NextParam(u).rest;
      OneMore(u, raw, rest);
    }
  }

  // The first loop of ParseCommandLineToArgs: parameters are counted, quotes always stripped.
  method CountParams(line: array<char>, temp: array<char>, length: nat, debug: bool, ghost e: nat) returns (count: nat)
    requires line != temp && CStr(line[..], 0, e) && e < length <= temp.Length
    modifies temp
    ensures count == |AllParams(line[..e]).raws|
  {
    count := 0;
    ghost var u := line[0..e];
    ghost var total := |AllParams(u).raws|;
    var walker: Option<nat> := Some(0);
    while walker.Some? && line[walker.value] != NUL
      invariant walker.Some? && walker.value <= e && line[walker.value..e] == u
      invariant count + |AllParams(u).raws| == total
      decreases e - walker.value
    {
      ghost var raw, rest;
      var status;
      status, walker, raw, rest := TakeParameter(line, walker.value, temp, length, true, debug, e, u);
      if status != Success {
        return;
      }
      u := rest;
      count := count + 1;
    }
  }

  // Lines 257-263.
  method StoreArg(temp: array<char>, argv: array<string>, argc: nat, ghost arg: string)
    requires Holds(temp[..], arg) && argc < argv.Length
    modifies argv
    ensures argv[..argc + 1] == old(argv[..argc]) + [arg]
  {
    var newParam := CopyOut(temp, arg);
    argv[argc] := newParam;
  }

  // The second loop. Every parameter has its place: the first pass counted as many.
  method FillArgs(line: array<char>, temp: array<char>, length: nat, strip: bool, debug: bool, argv: array<string>, ghost e: nat)
    returns (status: Status, argc: nat)
    requires line != temp && CStr(line[..], 0, e) && e < length <= temp.Length
    requires argv.Length == |AllParams(line[..e]).raws|
    modifies temp, argv
    ensures var all := AllParams(line[..e]);
            && argc == |all.raws| && argv[..] == UnescapedAll(all.raws, strip)
            && status == if all.complete then Success else InvalidParameter
  {
    argc := 0;
    ghost var u := line[0..e];
    ghost var all := AllParams(u);
    var walker: Option<nat> := Some(0);
    while walker.Some? && line[walker.value] != NUL
      invariant walker.Some? && walker.value <= e && line[walker.value..e] == u
      invariant argc <= argv.Length && Filled(argv[..argc], all.raws, strip)
      invariant all.raws[argc..] == AllParams(u).raws && all.complete == AllParams(u).complete
      decreases e - walker.value
    {
      status, walker, u := FillNext(line, walker.value, temp, length, strip, debug, argv, argc, e, u, all.raws);
      if status != Success {
        FilledAll(argv[..], all.raws, strip);
        return InvalidParameter, argc;
      }
      argc := argc + 1;
    }
    FilledAll(argv[..], all.raws, strip);
    status := Success;
  }

  // The arguments that are there already.
  ghost predicate Filled(args: seq<string>, raws: seq<string>, strip: bool) {
    |args| <= |raws| && forall i :: 0 <= i < |args| ==> args[i] == Unescaped(raws[i], strip)
  }

  lemma FilledAll(args: seq<string>, raws: seq<string>, strip: bool)
    requires Filled(args, raws, strip) && |args| == |raws|
    ensures args == UnescapedAll(raws, strip)
  {
  }

  // One turn of the second loop.
  method FillNext(line: array<char>, walker: nat, temp: array<char>, length: nat, strip: bool, debug: bool, argv: array<string>,
                  argc: nat, ghost e: nat, ghost u: string, ghost raws: seq<string>)
    returns (status: Status, walker': Option<nat>, ghost rest: string)
    requires line != temp && CStr(line[..], walker, e) && e - walker < length <= temp.Length
    requires line[walker..e] == u && u != []
    requires argc <= argv.Length == |raws| && Filled(argv[..argc], raws, strip) && raws[argc..] == AllParams(u).raws
    modifies temp, argv
    ensures status != Success ==> argc == |raws| && !AllParams(u).complete && Filled(argv[..], raws, strip)
    ensures status == Success ==>
              && walker'.Some? && walker < walker'.value <= e && line[walker'.value..e] == rest
              && argc < |raws| && Filled(argv[..argc + 1], raws, strip) && raws[argc + 1..] == AllParams(rest).raws
              && AllParams(u).complete == AllParams(rest).complete
  {
    ghost var raw;
    ClearTemp(temp);
    status, walker', raw, rest := TakeParameter(line, walker, temp, length, strip, debug, e, u);
    if status == Success {
      NextRaw(raw, AllParams(rest).raws, raws, argc);
      StoreArg(temp, argv, argc, Unescaped(raw, strip));
    } else {
      assert raws[argc..] == [];
      assert argv[..argc] == argv[..];
    }
  }

  lemma NextRaw(raw: string, more: seq<string>, raws: seq<string>, k: nat)
    requires k <= |raws| && raws[k..] == [raw] + more
    ensures k < |raws| && raws[k] == raw && raws[k + 1..] == more
  {
    assert raws[k] == raws[k..][0] && raws[k + 1..] == raws[k..][1..];
  }

  method ClearTemp(temp: array<char>)
    modifies temp
    ensures temp[..] == seq(temp.Length, _ => NUL)
  {
    var i := 0;
    while i < temp.Length
      invariant 0 <= i <= temp.Length
      invariant temp[..i] == seq(i, _ => NUL)
    {
      temp[i] := NUL;
      i := i + 1;
    }
  }

  // AllocateCopyPool (StrSize (TempParameter), TempParameter)
  method CopyOut(temp: array<char>, ghost t: string) returns (r: string)
    requires Holds(temp[..], t)
    ensures r == t
  {
    r := [];
    while temp[|r|] != NUL
      invariant |r| <= |t| && r == t[..|r|]
      decreases |t| - |r|
    {
      assert temp[..|t|][|r|] == temp[|r|];
      r := r + [temp[|r|]];
    }
  }

  // ParseCommandLineToArgs: the arguments, as many as there are places for them.
  method ParseCommandLineToArgs(commandLine: string, strip: bool, debug: bool) returns (status: Status, argv: array<string>, argc: nat)
    requires NUL !in commandLine
    ensures var all := AllParams(Trimmed(commandLine));
            && argc == |all.raws| && argv[..] == UnescapedAll(all.raws, strip)
            && status == if all.complete then Success else InvalidParameter
    ensures status == Success <==> ParsedArgs(commandLine, strip).Some?
    ensures status == Success ==> ParsedArgs(commandLine, strip) == Some(argv[..])
  {
    if |commandLine| == 0 {
      argv := new string[0];
      assert argv[..] == [];
      return Success, argv, 0;
    }
    var newCommandLine := CopyLine(commandLine);
    TrimSpaces(newCommandLine, |commandLine|);
    ghost var t := Trimmed(commandLine);
    ghost var e := |t|;
    var size := StrLen(newCommandLine, 0, e);
    size := size + 1;
    var tempParameter := new char[size](_ => NUL);
    var count := CountParams(newCommandLine, tempParameter, size, debug, e);
    argv := new string[count];
    status, argc := FillArgs(newCommandLine, tempParameter, size, strip, debug, argv, e);
  }

  method CopyLine(commandLine: string) returns (a: array<char>)
    requires NUL !in commandLine
    ensures fresh(a) && CStr(a[..], 0, |commandLine|) && a[..|commandLine|] == commandLine
  {
    a := new char[|commandLine| + 1](_ => NUL);
    var i := 0;
    while i < |commandLine|
      invariant 0 <= i <= |commandLine|
      invariant a[..i] == commandLine[..i] && a[|commandLine|] == NUL
    {
      a[i] := commandLine[i];
      i := i + 1;
    }
    assert a[..|commandLine|] == commandLine;
    forall k | 0 <= k < |commandLine| ensures a[k] != NUL {
      assert a[k] == commandLine[k];
    }
  }
}
