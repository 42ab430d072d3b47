/** avb_strstr and avb_replace of Application/UefiAvb/libavb/avb_util.c on NUL-terminated strings. */
module StrReplace {
  import opened CStrings
  import opened Sequences

  // ----- what replacing means

  predicate OccursAt(s: string, search: string, i: nat) {
    i + |search| <= |s| && s[i..i + |search|] == search
  }

  // The position of the first occurrence, or the length when there is none. The empty string
  // is never found.
  function FirstAt(s: string, search: string, from: nat): (r: nat)
    requires from <= |s|
    ensures from <= r <= |s|
    ensures r < |s| ==> 0 < |search| <= |s| - r
    decreases |s| - from
  {
    if from == |s| then |s|
    else if search != [] && OccursAt(s, search, from) then from
    else FirstAt(s, search, from + 1)
  }

  lemma {:induction false} FirstAtMeaning(s: string, search: string, from: nat)
    requires from <= |s|
    ensures var r := FirstAt(s, search, from);
            && (r < |s| ==> OccursAt(s, search, r))
            && (search != [] ==> forall i :: from <= i < r ==> !OccursAt(s, search, i))
    decreases |s| - from
  {
    if from < |s| && !(search != [] && OccursAt(s, search, from)) {
      FirstAtMeaning(s, search, from + 1);
    }
  }

  // The stretches between the occurrences, taken from left to right without overlap.
  function Pieces(s: string, search: string): (r: seq<string>)
    ensures |r| > 0
    decreases |s|
  {
    var i := FirstAt(s, search, 0);
    if i == |s| then [s] else [s[..i]] + Pieces(s[i + |search|..], search)
  }

  function Join(pieces: seq<string>, glue: string): string
    requires |pieces| > 0
  {
    if |pieces| == 1 then pieces[0] else pieces[0] + glue + Join(pieces[1..], glue)
  }

  function Replaced(s: string, search: string, replace: string): string {
    Join(Pieces(s, search), replace)
  }

  lemma JoinCons(p: string, rest: seq<string>, glue: string)
    requires |rest| > 0
    ensures Join([p] + rest, glue) == p + glue + Join(rest, glue)
  {
    assert ([p] + rest)[1..] == rest;
  }

  lemma PiecesStep(s: string, search: string, i: nat)
    requires i == FirstAt(s, search, 0)
    ensures Pieces(s, search) == if i == |s| then [s] else [s[..i]] + Pieces(s[i + |search|..], search)
  {
  }

  lemma ReplacedStep(s: string, search: string, replace: string, i: nat)
    requires i == FirstAt(s, search, 0)
    ensures Replaced(s, search, replace) == ReplacedFrom(s, search, replace, i)
  {
    PiecesStep(s, search, i);
    JoinStep(Pieces(s, search), s, i, if i == |s| then [] else Pieces(s[i + |search|..], search), replace);
  }

  lemma JoinStep(pieces: seq<string>, s: string, i: nat, rest: seq<string>, glue: string)
    requires i <= |s| && pieces == (if i == |s| then [s] else [s[..i]] + rest) && (i < |s| ==> rest != [])
    ensures Join(pieces, glue) == if i == |s| then s else s[..i] + glue + Join(rest, glue)
  {
    if i < |s| {
      JoinCons(s[..i], rest, glue);
    }
  }

  // Putting the search string back between the pieces gives the string.
  lemma {:induction false} PiecesJoin(s: string, search: string)
    ensures Join(Pieces(s, search), search) == s
    decreases |s|
  {
    var i := FirstAt(s, search, 0);
    ReplacedStep(s, search, search, i);
    if i < |s| {
      FirstAtMeaning(s, search, 0);
      PiecesJoin(s[i + |search|..], search);
      assert s == s[..i] + search + s[i + |search|..];
    }
  }

  // No piece contains the search string: nothing is left to replace.
  lemma {:induction false} PiecesAreFree(s: string, search: string, k: nat, i: nat)
    requires search != [] && k < |Pieces(s, search)|
    ensures !OccursAt(Pieces(s, search)[k], search, i)
    decreases |s|
  {
    var first := FirstAt(s, search, 0);
    FirstAtMeaning(s, search, 0);
    if first < |s| {
      if k > 0 {
        PiecesAreFree(s[first + |search|..], search, k - 1, i);
      } else if i + |search| <= first {
        assert s[..first][i..i + |search|] == s[i..i + |search|];
        assert !OccursAt(s, search, i);
      }
    } else {
      assert i < first ==> !OccursAt(s, search, i);
    }
  }

  // Each replacement changes the length by the same amount.
  lemma {:induction false} JoinLength(pieces: seq<string>, search: string, replace: string)
    requires |pieces| > 0
    ensures |Join(pieces, replace)| == |Join(pieces, search)| + (|pieces| - 1) * (|replace| - |search|)
  {
    if |pieces| > 1 {
      JoinLength(pieces[1..], search, replace);
      var (k, d) := (|pieces| - 2, |replace| - |search|);
      assert (k + 1) * d == k * d + d;
    }
  }

  lemma ReplacedLength(s: string, search: string, replace: string)
    ensures |Replaced(s, search, replace)| == |s| + (|Pieces(s, search)| - 1) * (|replace| - |search|)
  {
    PiecesJoin(s, search);
    JoinLength(Pieces(s, search), search, replace);
  }

  lemma {:induction false} NothingFound(s: string, from: nat)
    requires from <= |s|
    ensures FirstAt(s, [], from) == |s|
    decreases |s| - from
  {
    if from < |s| {
      NothingFound(s, from + 1);
    }
  }

  lemma EmptySearchCopies(s: string, replace: string)
    ensures Replaced(s, [], replace) == s
  {
    NothingFound(s, 0);
  }

  // ----- the loops

  // avb_strstr: None for NULL. No character behind a terminator is read.
  method AvbStrstr(haystack: array<char>, h: nat, needle: array<char>, ghost eh: nat, ghost en: nat) returns (found: bool, at: nat)
    requires CStr(haystack[..], h, eh) && CStr(needle[..], 0, en)
    ensures var first := FirstAt(haystack[h..eh], needle[..en], 0);
            found == (first < eh - h) && (found ==> at == h + first)
  {
    ghost var (s, t) := (haystack[h..eh], needle[..en]);
    at := h;
    found := false;
    var n := 0;
    while haystack[h + n] != NUL
      invariant 0 <= n <= |s|
      invariant FirstAt(s, t, 0) == FirstAt(s, t, n)
      decreases |s| - n
    {
      var here := MatchesAt(haystack, h + n, needle, eh, en);
      assert here <==> t != [] && OccursAt(s, t, n) by { SameOccurrence(haystack[..], h, eh, n, t); }
      if here {
        return true, h + n;
      }
      n := n + 1;
    }
  }

  lemma SameOccurrence(buffer: seq<char>, h: nat, e: nat, n: nat, t: string)
    requires h <= e <= |buffer| && n <= e - h
    ensures OccursAt(buffer[h..e], t, n) <==> h + n + |t| <= e && buffer[h + n..h + n + |t|] == t
  {
    if h + n + |t| <= e {
      SliceOfSlice(buffer, h, e, n, n + |t|);
    }
  }

  // Lines 234-247 for one position.
  method MatchesAt(haystack: array<char>, p: nat, needle: array<char>, ghost eh: nat, ghost en: nat) returns (r: bool)
    requires CStr(haystack[..], p, eh) && p < eh && CStr(needle[..], 0, en)
    ensures r <==> 0 < en && p + en <= eh && haystack[p..p + en] == needle[..en]
  {
    if haystack[p] != needle[0] {
      if 0 < en && p + en <= eh {
        assert haystack[p..p + en][0] != needle[..en][0];
      }
      return false;
    }
    var m := 1;
    while needle[m] != NUL
      invariant 1 <= m <= en && p + m <= eh
      invariant haystack[p..p + m] == needle[..m]
      decreases en - m
    {
      if haystack[p + m] != needle[m] {
        if p + en <= eh {
          assert haystack[p..p + en][m] != needle[..en][m];
        }
        return false;
      }
      assert haystack[p..p + m + 1] == haystack[p..p + m] + [haystack[p + m]];
      assert needle[..m + 1] == needle[..m] + [needle[m]];
      m := m + 1;
    }
    return true;
  }

  // avb_memcpy
  method Memcpy(dst: array<char>, d: nat, src: array<char>, s: nat, n: nat)
    requires dst != src && d + n <= dst.Length && s + n <= src.Length
    modifies dst
    ensures dst[..d] == old(dst[..d]) && dst[d..d + n] == src[s..s + n]
  {
    var i := 0;
    while i < n
      invariant 0 <= i <= n
      invariant dst[..d] == old(dst[..d]) && dst[d..d + i] == src[s..s + i]
    {
      dst[d + i] := src[s + i];
      assert dst[d..d + i + 1] == dst[d..d + i] + [src[s + i]];
      i := i + 1;
    }
  }

  // A new buffer with three strings one after the other and a terminator.
  method Concatenate(a: array<char>, na: nat, b: array<char>, pb: nat, nb: nat, c: array<char>, nc: nat,
                     ghost s: string, ghost t: string, ghost u: string) returns (r: array<char>)
    requires na <= a.Length && pb + nb <= b.Length && nc <= c.Length
    requires a[..na] == s && b[pb..pb + nb] == t && c[..nc] == u
    ensures fresh(r) && Holds0(r[..], s + t + u)
  {
    r := new char[na + nb + nc + 1];
    Memcpy(r, 0, a, 0, na);
    assert r[..na] == s;
    Memcpy(r, na, b, pb, nb);
    assert r[..na + nb] == s + t;
    Memcpy(r, na + nb, c, 0, nc);
    assert r[..na + nb + nc] == s + t + u;
    r[na + nb + nc] := NUL;
  }

  // A text, its terminator, and nothing else.
  ghost predicate Holds0(buffer: seq<char>, t: string) {
    |buffer| == |t| + 1 && buffer[..|t|] == t && buffer[|t|] == NUL
  }

  lemma {:induction false} ReplacedNulFree(s: string, search: string, replace: string)
    requires NUL !in s && NUL !in replace
    ensures NUL !in Replaced(s, search, replace)
    decreases |s|
  {
    var i := FirstAt(s, search, 0);
    ReplacedStep(s, search, replace, i);
    if i < |s| {
      ReplacedNulFree(s[i + |search|..], search, replace);
    }
  }

  // A function that finds, and one that replaces step by step; the triggers keep FirstAt and
  // Replaced out of sight.
  ghost predicate Finds(search: string, first: string -> nat) {
    forall s: string {:trigger FirstAt(s, search, 0)} :: first(s) == FirstAt(s, search, 0)
  }

  ghost predicate Replaces(search: string, replace: string, first: string -> nat, rep: string -> string) {
    forall s: string {:trigger first(s)} :: StepAt(search, replace, first, rep, s)
  }

  ghost predicate StepAt(search: string, replace: string, first: string -> nat, rep: string -> string, s: string) {
    && first(s) <= |s| && (first(s) < |s| ==> 0 < |search| <= |s| - first(s))
    && rep(s) == if first(s) == |s| then s else s[..first(s)] + replace + rep(s[first(s) + |search|..])
  }

  ghost function FirstIn(search: string): string -> nat { s => FirstAt(s, search, 0) }

  ghost function ReplacedAll(search: string, replace: string): string -> string { s => Replaced(s, search, replace) }

  lemma ReplacedAllReplaces(search: string, replace: string)
    ensures Finds(search, FirstIn(search)) && Replaces(search, replace, FirstIn(search), ReplacedAll(search, replace))
  {
    forall s: string ensures StepAt(search, replace, FirstIn(search), ReplacedAll(search, replace), s) {
      ReplacedAllAt(search, replace, s);
    }
  }

  lemma ReplacedAllAt(search: string, replace: string, s: string)
    ensures StepAt(search, replace, FirstIn(search), ReplacedAll(search, replace), s)
  {
    var i := FirstAt(s, search, 0);
    ReplacedStep(s, search, replace, i);
    assert FirstIn(search)(s) == i;
    assert ReplacedAll(search, replace)(s) == Replaced(s, search, replace);
  }

  // What Replaced is when the first occurrence is at i.
  function ReplacedFrom(s: string, search: string, replace: string, i: nat): string
    requires i <= |s| && (i < |s| ==> i + |search| <= |s|)
  {
    if i == |s| then s else s[..i] + replace + Replaced(s[i + |search|..], search, replace)
  }

  lemma NextPiece(goal: string, done: string, rest: string, search: string, replace: string, first: string -> nat, rep: string -> string)
    requires Replaces(search, replace, first, rep) && done + rep(rest) == goal
    ensures var i := first(rest);
            && (i == |rest| ==> done + rest == goal)
            && (i < |rest| ==> done + rest[..i] + replace + rep(rest[i + |search|..]) == goal)
  {
    var i := first(rest);
    if i < |rest| {
      Regroup(done, rest[..i], replace, rep(rest[i + |search|..]));
    }
  }

  method FindNext(str: array<char>, pos: nat, search: array<char>, ghost es: nat, ghost ek: nat,
                  ghost rest: string, ghost k: string, ghost first: string -> nat) returns (found: bool, s: nat)
    requires CStr(str[..], pos, es) && CStr(search[..], 0, ek) && str[pos..es] == rest && search[..ek] == k && Finds(k, first)
    ensures found == (first(rest) < |rest|) && (found ==> s == pos + first(rest))
  {
    found, s := AvbStrstr(str, pos, search, es, ek);
  }

  // avb_replace, when every allocation succeeds. The first buffer of the source is made from
  // the text before the first occurrence alone; here it is appended to an empty one.
  method AvbReplace(str: array<char>, search: array<char>, replace: array<char>, ghost es: nat, ghost ek: nat, ghost er: nat)
    returns (ret: array<char>)
    requires CStr(str[..], 0, es) && CStr(search[..], 0, ek) && CStr(replace[..], 0, er)
    ensures Holds(ret[..], Replaced(str[..es], search[..ek], replace[..er]))
    ensures ret.Length == |Replaced(str[..es], search[..ek], replace[..er])| + 1
  {
    ghost var (k, r) := (search[..ek], replace[..er]);
    ghost var goal := Replaced(str[..es], k, r);
    ReplacedAllReplaces(k, r);
    assert str[0..es] == str[..es];
    ret := ReplaceLoop(str, search, replace, es, ek, er, str[..es], k, r, FirstIn(k), ReplacedAll(k, r));
    ReplacedNulFree(str[..es], k, r);
    HoldsText(ret[..], goal);
  }

  // Lines 275-336.
  method ReplaceLoop(str: array<char>, search: array<char>, replace: array<char>, ghost es: nat, ghost ek: nat, ghost er: nat,
                     ghost t: string, ghost k: string, ghost r: string,
                     ghost first: string -> nat, ghost rep: string -> string)
    returns (ret: array<char>)
    requires CStr(str[..], 0, es) && CStr(search[..], 0, ek) && CStr(replace[..], 0, er)
    requires str[0..es] == t && search[..ek] == k && replace[..er] == r
    requires Finds(k, first) && Replaces(k, r, first, rep)
    ensures Holds0(ret[..], rep(t))
  {
    var searchLen := StrLen(search, 0, ek);
    var replaceLen := StrLen(replace, 0, er);
    ret := new char[1](_ => NUL);
    var retLen, pos := 0, 0;
    ghost var (done, rest) := ([], t);
    while str[pos] != NUL
      invariant pos <= es && str[pos..es] == rest
      invariant retLen == |done| && Holds0(ret[..], done)
      invariant done + rep(rest) == rep(t)
      decreases es - pos
    {
      var found, s := FindNext(str, pos, search, es, ek, rest, k, first);
      NextPiece(rep(t), done, rest, k, r, first, rep);
      if !found {
        break;
      }
      ret, done, rest := ReplaceOne(str, pos, s, searchLen, replace, replaceLen, ret, retLen, es, done, rest, r);
      retLen := retLen + (s - pos) + replaceLen;
      pos := s + searchLen;
    }
    NextPiece(rep(t), done, rest, k, r, first, rep);
    var numRemaining := StrLen(str, pos, es);
    ret := Concatenate(ret, retLen, str, pos, numRemaining, replace, 0, done, rest, []);
    assert done + rest + [] == rep(t);
  }

  // Lines 286-315: what was there, the text before the occurrence, and the replacement.
  method ReplaceOne(str: array<char>, pos: nat, s: nat, searchLen: nat, replace: array<char>, replaceLen: nat,
                    ret0: array<char>, retLen: nat, ghost es: nat, ghost done: string, ghost rest: string, ghost r: string)
    returns (ret: array<char>, ghost done': string, ghost rest': string)
    requires pos <= s && s + searchLen <= es <= str.Length && str[pos..es] == rest
    requires replaceLen <= replace.Length && replace[..replaceLen] == r
    requires retLen == |done| && Holds0(ret0[..], done)
    ensures Holds0(ret[..], done') && done' == done + rest[..s - pos] + r
    ensures rest' == rest[s - pos + searchLen..] && str[s + searchLen..es] == rest'
  {
    ghost var before := rest[..s - pos];
    assert str[pos..s] == before;
    TailOfSlice(str[..], pos, es, s - pos + searchLen);
    ret := Concatenate(ret0, retLen, str, pos, s - pos, replace, replaceLen, done, before, r);
    done' := done + before + r;
    rest' := rest[s - pos + searchLen..];
  }

  lemma HoldsText(buffer: seq<char>, t: string)
    requires Holds0(buffer, t) && NUL !in t
    ensures Holds(buffer, t)
  {
    forall i | 0 <= i < |t| ensures buffer[i] != NUL {
      assert buffer[i] == buffer[..|t|][i];
    }
  }
}
