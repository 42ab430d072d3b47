/** How Drivers/Dxe/UefiConsole/ConsoleParameters.c and the string helpers of UefiConsole.c split
    a command line, as functions on the text before its terminator, and what that means for
    text in which every special character is escaped with `^`. */
module ConsoleSpec {
  import opened Bytes

  // ----- scanning

  // FindFirstCharacter: the offset of the first character of the list that is not behind an
  // escape character, or the length.
  function First(t: string, list: string, esc: char): (r: nat)
    ensures r <= |t|
  {
    if t == [] then 0
    else if t[0] == esc then (if |t| == 1 then 1 else 2 + First(t[2..], list, esc))
    else if t[0] in list then 0
    else 1 + First(t[1..], list, esc)
  }

  const SPACE_QUOTE: string := [' ', '"']
  const QUOTE: string := ['"']
  const QUOTE_CARET: string := ['"', '^']

  // Finding a character of a list that is not escaped.
  function Find(): (string, string) -> nat { (t, list) => First(t, list, '^') }

  // FindEndOfParameter: where the parameter at the start of the text ends; None for a quote
  // that is not closed. The scan stays unknown here.
  function EndOfBy(find: (string, string) -> nat, t: string): Option<nat>
    decreases |t|
  {
    var first := find(t, SPACE_QUOTE);
    if first >= |t| then Some(|t|)
    else if t[first] == ' ' then Some(first)
    else
      var rest := t[first + 1..];
      var close := find(rest, QUOTE);
      if close >= |rest| then None
      else
        var end := EndOfBy(find, rest[close + 1..]);
        if end.None? then None else Some(first + 1 + close + 1 + end.value)
  }

  lemma {:induction false} EndInside(find: (string, string) -> nat, t: string)
    ensures var r := EndOfBy(find, t);
            r.Some? ==> r.value <= |t| && (t != [] && t[0] != ' ' ==> r.value > 0)
    decreases |t|
  {
    var first := find(t, SPACE_QUOTE);
    if first < |t| && t[first] != ' ' {
      var rest := t[first + 1..];
      var close := find(rest, QUOTE);
      if close < |rest| {
        EndInside(find, rest[close + 1..]);
      }
    }
  }

  function EndOf(t: string): (r: Option<nat>)
    ensures r.Some? ==> r.value <= |t|
    ensures r.Some? && t != [] && t[0] != ' ' ==> r.value > 0
  {
    EndInside(Find(), t);
    EndOfBy(Find(), t)
  }

  // A scan that is First; the trigger keeps its definition out of sight.
  ghost predicate IsFind(find: (string, string) -> nat) {
    forall t: string, list: string {:trigger First(t, list, '^')} :: find(t, list) == First(t, list, '^')
  }

  lemma FindIsFind()
    ensures IsFind(Find())
  {
  }

  function Shifted(n: nat, r: Option<nat>): Option<nat> { if r.None? then None else Some(n + r.value) }

  // One step of EndOfBy, with what remains to be scanned left to `end`.
  ghost function EndStep(find: (string, string) -> nat, end: string -> Option<nat>, t: string): Option<nat> {
    var first := find(t, SPACE_QUOTE);
    if first >= |t| then Some(|t|)
    else if t[first] == ' ' then Some(first)
    else Shifted(first + 1, BehindQuote(find, end, t[first + 1..]))
  }

  ghost function BehindQuote(find: (string, string) -> nat, end: string -> Option<nat>, rest: string): Option<nat> {
    var close := find(rest, QUOTE);
    if close >= |rest| then None else Shifted(close + 1, end(rest[close + 1..]))
  }

  ghost predicate IsEnd(find: (string, string) -> nat, end: string -> Option<nat>) {
    forall t: string {:trigger find(t, SPACE_QUOTE)} :: end(t) == EndStep(find, end, t)
  }

  ghost function EndOfAll(find: (string, string) -> nat): string -> Option<nat> { t => EndOfBy(find, t) }

  lemma EndOfAllIsEnd(find: (string, string) -> nat)
    ensures IsEnd(find, EndOfAll(find))
  {
  }

  function SkipSpaces(t: string): (r: string)
    ensures |r| <= |t| && (r != [] ==> r[0] != ' ')
  {
    if t != [] && t[0] == ' ' then SkipSpaces(t[1..]) else t
  }

  // ----- one parameter

  datatype Next = NoMore | Unbalanced | Param(raw: string, rest: string)

  function NextParam(t: string): (n: Next)
    ensures n.Param? ==> |n.rest| < |t|
  {
    var u := SkipSpaces(t);
    if u == [] then NoMore
    else
      var end := EndOf(u);
      if end.None? then Unbalanced else Param(u[..end.value], u[end.value..])
  }

  // What becomes of a raw parameter: an escape character goes and what follows it stays; an
  // unescaped quote goes only when quotes are stripped.
  function Unescaped(p: string, strip: bool): (r: string)
    ensures |r| <= |p|
  {
    if p == [] then []
    else if p[0] == '^' then (if |p| == 1 then [] else [p[1]] + Unescaped(p[2..], strip))
    else if p[0] == '"' && strip then Unescaped(p[1..], strip)
    else [p[0]] + Unescaped(p[1..], strip)
  }

  // ----- the whole line

  // The raw parameters from the start of the text on, and whether the end was reached.
  datatype Params = Params(raws: seq<string>, complete: bool)

  function AllParams(t: string): Params
    decreases |t|
  {
    if t == [] then Params([], true)
    else
      match NextParam(t)
      case Param(raw, rest) => var more := AllParams(rest); Params([raw] + more.raws, more.complete)
      case _ => Params([], false)
  }

  predicate Blank(c: char) { c == ' ' || c == '\t' }

  function TrimmedLeft(t: string): string {
    if t != [] && Blank(t[0]) then TrimmedLeft(t[1..]) else t
  }

  function TrimmedRight(t: string): (r: string)
    ensures |r| <= |t| && r == t[..|r|] && (r != [] ==> !Blank(r[|r| - 1]))
  {
    if t != [] && Blank(t[|t| - 1]) then TrimmedRight(t[..|t| - 1]) else t
  }

  function Trimmed(t: string): string { TrimmedRight(TrimmedLeft(t)) }

  function UnescapedAll(raws: seq<string>, strip: bool): (r: seq<string>)
    ensures |r| == |raws|
  {
    seq(|raws|, i requires 0 <= i < |raws| => Unescaped(raws[i], strip))
  }

  // ----- escaping, and back

  predicate Special(c: char) { c == ' ' || c == '"' || c == '^' }

  function Escaped(a: string): string {
    if a == [] then [] else (if Special(a[0]) then ['^', a[0]] else [a[0]]) + Escaped(a[1..])
  }

  lemma EscapedCharIsSkipped(c: char, rest: string, list: string)
    ensures First(['^', c] + rest, list, '^') == 2 + First(rest, list, '^')
  {
    assert (['^', c] + rest)[2..] == rest;
  }

  lemma PlainCharIsSkipped(c: char, rest: string, list: string)
    requires c != '^' && c !in list
    ensures First([c] + rest, list, '^') == 1 + First(rest, list, '^')
  {
    assert ([c] + rest)[1..] == rest;
  }

  // No special character of an escaped text is found, only what stands behind the text.
  lemma {:induction false} EscapedHidesAll(a: string, t: string, list: string)
    requires forall c :: c in list ==> Special(c)
    requires t == [] || (t[0] in list && t[0] != '^')
    ensures First(Escaped(a) + t, list, '^') == |Escaped(a)|
  {
    if a == [] {
      assert Escaped(a) + t == t;
    } else {
      EscapedHidesAll(a[1..], t, list);
      EscapedStep(a, t);
      var rest := Escaped(a[1..]) + t;
      if Special(a[0]) {
        EscapedCharIsSkipped(a[0], rest, list);
      } else {
        PlainCharIsSkipped(a[0], rest, list);
      }
    }
  }

  lemma EscapedStep(a: string, t: string)
    requires a != []
    ensures Escaped(a) + t == (if Special(a[0]) then ['^', a[0]] else [a[0]]) + (Escaped(a[1..]) + t)
    ensures |Escaped(a)| == (if Special(a[0]) then 2 else 1) + |Escaped(a[1..])|
  {
  }

  lemma {:induction false} UnescapedEscaped(a: string, strip: bool)
    ensures Unescaped(Escaped(a), strip) == a
  {
    if a != [] {
      UnescapedEscaped(a[1..], strip);
      var (s, rest) := (Escaped(a), Escaped(a[1..]));
      if Special(a[0]) {
        assert s[0] == '^' && s[1] == a[0] && s[2..] == rest;
      } else {
        assert s[0] == a[0] && s[1..] == rest;
      }
    }
  }

  // An escaped argument in front of a space or of the end of the line is read as one
  // parameter, which unescapes to the argument whether or not quotes are stripped.
  lemma EscapedIsOneParam(a: string, t: string, strip: bool)
    requires a != [] && (t == [] || t[0] == ' ')
    ensures NextParam(Escaped(a) + t) == Param(Escaped(a), t)
    ensures Unescaped(Escaped(a), strip) == a
  {
    var (e, s) := (Escaped(a), Escaped(a) + t);
    EscapedHidesAll(a, t, SPACE_QUOTE);
    UnescapedEscaped(a, strip);
    assert s[0] == e[0] != ' ';
    assert SkipSpaces(s) == s;
    assert s[..|e|] == e && s[|e|..] == t;
  }

  // ----- a whole command line of escaped arguments

  function Line(args: seq<string>): string {
    if args == [] then []
    else if |args| == 1 then Escaped(args[0])
    else Escaped(args[0]) + [' '] + Line(args[1..])
  }

  function EscapedAll(args: seq<string>): (r: seq<string>)
    ensures |r| == |args|
  {
    seq(|args|, i requires 0 <= i < |args| => Escaped(args[i]))
  }

  predicate NonEmpty(args: seq<string>) { forall i :: 0 <= i < |args| ==> args[i] != [] }

  lemma LeadingSpace(t: string)
    requires t != []
    ensures AllParams([' '] + t) == AllParams(t)
  {
    assert ([' '] + t)[1..] == t;
    assert SkipSpaces([' '] + t) == SkipSpaces(t);
    assert NextParam([' '] + t) == NextParam(t);
  }

  lemma OneMore(s: string, raw: string, rest: string)
    requires s != [] && NextParam(s) == Param(raw, rest)
    ensures AllParams(s) == Params([raw] + AllParams(rest).raws, AllParams(rest).complete)
  {
  }

  lemma {:induction false} LineIsArgs(args: seq<string>)
    requires NonEmpty(args)
    ensures AllParams(Line(args)) == Params(EscapedAll(args), true)
    ensures args != [] ==> Line(args) != []
  {
    if args != [] {
      var rest := args[1..];
      LineIsArgs(rest);
      TailIsArgs(rest);
      LineStarts(args);
      EscapedIsOneParam(args[0], Tail(rest), true);
      OneMore(Line(args), Escaped(args[0]), Tail(rest));
      EscapedAllStep(args);
    } else {
      assert EscapedAll(args) == [];
    }
  }

  // What follows the first argument.
  function Tail(rest: seq<string>): string { if rest == [] then [] else [' '] + Line(rest) }

  lemma TailIsArgs(rest: seq<string>)
    requires rest != [] ==> Line(rest) != []
    requires AllParams(Line(rest)) == Params(EscapedAll(rest), true)
    ensures AllParams(Tail(rest)) == Params(EscapedAll(rest), true)
    ensures Tail(rest) == [] || Tail(rest)[0] == ' '
  {
    if rest != [] {
      LeadingSpace(Line(rest));
    }
  }

  lemma EscapedAllStep(args: seq<string>)
    requires args != []
    ensures EscapedAll(args) == [Escaped(args[0])] + EscapedAll(args[1..])
  {
  }

  lemma LineStarts(args: seq<string>)
    requires args != []
    ensures Line(args) == Escaped(args[0]) + Tail(args[1..])
    ensures args[0] != [] ==> Line(args) != []
  {
  }

  // ParseCommandLineToArgs as a function: the arguments, or None for a quote without end.
  function ParsedArgs(line: string, strip: bool): Option<seq<string>> {
    var all := AllParams(Trimmed(line));
    if all.complete then Some(UnescapedAll(all.raws, strip)) else None
  }

  lemma UnescapedEscapedAll(args: seq<string>, strip: bool)
    ensures UnescapedAll(EscapedAll(args), strip) == args
  {
    forall i | 0 <= i < |args| ensures UnescapedAll(EscapedAll(args), strip)[i] == args[i] {
      UnescapedEscaped(args[i], strip);
    }
  }

  // Escaping protects everything except what trimming takes: a tab at the very start, and a
  // space or a tab at the very end.
  predicate SurvivesTrim(args: seq<string>)
    requires NonEmpty(args)
  {
    args != [] ==> args[0][0] != '\t' && var last := args[|args| - 1]; !Blank(last[|last| - 1])
  }

  lemma {:induction false} LastOfLine(args: seq<string>)
    requires NonEmpty(args) && args != []
    ensures Line(args) != []
    ensures Line(args)[|Line(args)| - 1] == args[|args| - 1][|args[|args| - 1]| - 1]
  {
    LineStarts(args);
    if |args| == 1 {
      LastOfEscaped(args[0]);
    } else {
      var (front, back) := (Escaped(args[0]) + [' '], Line(args[1..]));
      LastOfLine(args[1..]);
      assert Line(args) == front + back;
      assert args[1..][|args| - 2] == args[|args| - 1];
    }
  }

  lemma {:induction false} LastOfEscaped(a: string)
    requires a != []
    ensures Escaped(a) != [] && Escaped(a)[|Escaped(a)| - 1] == a[|a| - 1]
  {
    if |a| > 1 {
      LastOfEscaped(a[1..]);
    } else {
      assert Escaped(a[1..]) == [];
    }
  }

  lemma RoundTrip(args: seq<string>, strip: bool)
    requires NonEmpty(args) && SurvivesTrim(args)
    ensures ParsedArgs(Line(args), strip) == Some(args)
  {
    var t := Line(args);
    if args != [] {
      LastOfLine(args);
      assert t[0] == Escaped(args[0])[0];
    }
    assert Trimmed(t) == t;
    LineIsArgs(args);
    UnescapedEscapedAll(args, strip);
  }
}
