/** What quotes mean to the argument parser of Drivers/Dxe/UefiConsole/ConsoleParameters.c: where a
    parameter ends, said without a scan, what a quoted text is read as, and which lines are refused. */
module ConsoleQuotes {
  import opened Bytes
  import opened ConsoleSpec
  import opened ConsoleTrim

  // How many quotes stand in a text without an escape character in front.
  function Quotes(t: string): nat {
    if t == [] then 0
    else if t[0] == '^' then (if |t| == 1 then 0 else Quotes(t[2..]))
    else (if t[0] == '"' then 1 else 0) + Quotes(t[1..])
  }

  // A space that no escape character precedes, behind an even number of quotes; `open` tells whether
  // one more quote came before the text.
  predicate Outside(t: string, i: nat, open: bool)
    requires i < |t|
  {
    t[i] == ' ' && Closed(t[..i]) && (Quotes(t[..i]) % 2 == 1) == open
  }

  // ----- one pass over the text

  datatype Reached = Reached(at: nat, open: bool)

  // Up to the first space outside quotes, or the end.
  function Pass(t: string, open: bool): Reached {
    if t == [] then Reached(0, open)
    else if t[0] == '^' then
      if |t| == 1 then Reached(1, open) else Behind(2, Pass(t[2..], open))
    else if t[0] == ' ' && !open then Reached(0, open)
    else Behind(1, Pass(t[1..], if t[0] == '"' then !open else open))
  }

  function Behind(n: nat, r: Reached): Reached { Reached(n + r.at, r.open) }

  // The pass stops at the first space outside quotes; without one, it ends as open as the number of
  // quotes says.
  lemma {:induction false} PassMeaning(t: string, open: bool)
    ensures var r := Pass(t, open);
            && r.at <= |t|
            && (forall i :: 0 <= i < r.at ==> !Outside(t, i, open))
            && (r.at < |t| ==> Outside(t, r.at, open) && !r.open)
            && (r.at == |t| ==> r.open == (open != (Quotes(t) % 2 == 1)))
  {
    if t != [] {
      if t[0] == '^' {
        if |t| > 1 {
          PassMeaning(t[2..], open);
          forall i | 2 <= i < |t| ensures Outside(t, i, open) == Outside(t[2..], i - 2, open) {
            assert t[..i][2..] == t[2..][..i - 2];
          }
        }
        assert !Closed(t[..1]);
      } else if t[0] != ' ' || open {
        var open' := if t[0] == '"' then !open else open;
        PassMeaning(t[1..], open');
        forall i | 1 <= i < |t| ensures Outside(t, i, open) == Outside(t[1..], i - 1, open') {
          OutsideStep(t, i, open, open');
        }
      }
    }
  }

  lemma OutsideStep(t: string, i: nat, open: bool, open': bool)
    requires 1 <= i < |t| && t[0] != '^' && open' == if t[0] == '"' then !open else open
    ensures Outside(t, i, open) == Outside(t[1..], i - 1, open')
  {
    assert t[..i][1..] == t[1..][..i - 1];
  }

  // ----- the scan of the source is that pass

  lemma {:induction false} PassToDelimiter(t: string)
    ensures var n := First(t, SPACE_QUOTE, '^'); Pass(t, false) == Behind(n, Pass(t[n..], false))
  {
    if t != [] {
      if t[0] == '^' {
        if |t| > 1 {
          PassToDelimiter(t[2..]);
          assert t[2..][First(t[2..], SPACE_QUOTE, '^')..] == t[First(t, SPACE_QUOTE, '^')..];
        } else {
          assert t[1..] == [];
        }
      } else if t[0] !in SPACE_QUOTE {
        PassToDelimiter(t[1..]);
        assert t[1..][First(t[1..], SPACE_QUOTE, '^')..] == t[First(t, SPACE_QUOTE, '^')..];
      }
    }
  }

  lemma {:induction false} PassToQuote(t: string)
    ensures var n := First(t, QUOTE, '^'); Pass(t, true) == Behind(n, Pass(t[n..], true))
  {
    if t != [] {
      if t[0] == '^' {
        if |t| > 1 {
          PassToQuote(t[2..]);
          assert t[2..][First(t[2..], QUOTE, '^')..] == t[First(t, QUOTE, '^')..];
        } else {
          assert t[1..] == [];
        }
      } else if t[0] !in QUOTE {
        PassToQuote(t[1..]);
        assert t[1..][First(t[1..], QUOTE, '^')..] == t[First(t, QUOTE, '^')..];
      }
    }
  }

  lemma PassAt(t: string, n: nat, open: bool)
    requires n <= |t| && (n < |t| ==> t[n] == '"' || (t[n] == ' ' && !open))
    ensures n == |t| ==> Pass(t[n..], open) == Reached(0, open)
    ensures n < |t| && t[n] == ' ' ==> Pass(t[n..], open) == Reached(0, open)
    ensures n < |t| && t[n] == '"' ==> Pass(t[n..], open) == Behind(1, Pass(t[n + 1..], !open))
  {
    var u := t[n..];
    if n < |t| {
      assert u[0] == t[n] && u[1..] == t[n + 1..];
    }
  }

  function EndAt(r: Reached): Option<nat> { if r.open then None else Some(r.at) }

  // The pass over what comes before a delimiter, and over the delimiter. The pass is unknown here.
  ghost predicate OverText(pass: (string, bool) -> Reached, t: string, n: nat) {
    && n <= |t|
    && (n == |t| || t[n] == ' ' ==> pass(t, false) == Reached(n, false))
    && (n < |t| && t[n] != ' ' ==> pass(t, false) == Behind(n + 1, pass(t[n + 1..], true)))
  }

  ghost predicate OverQuoted(pass: (string, bool) -> Reached, t: string, n: nat) {
    && n <= |t|
    && (n == |t| ==> pass(t, true) == Reached(n, true))
    && (n < |t| ==> pass(t, true) == Behind(n + 1, pass(t[n + 1..], false)))
  }

  ghost function PassOf(): (string, bool) -> Reached { (t, open) => Pass(t, open) }

  lemma PassOverText(t: string)
    ensures OverText(PassOf(), t, First(t, SPACE_QUOTE, '^'))
  {
    var n := First(t, SPACE_QUOTE, '^');
    PassToDelimiter(t);
    if n < |t| {
      FirstClosed(t, SPACE_QUOTE);
    }
    PassAt(t, n, false);
  }

  lemma PassOverQuoted(t: string)
    ensures OverQuoted(PassOf(), t, First(t, QUOTE, '^'))
  {
    var n := First(t, QUOTE, '^');
    PassToQuote(t);
    if n < |t| {
      FirstClosed(t, QUOTE);
    }
    PassAt(t, n, true);
  }

  ghost predicate Fits(find: (string, string) -> nat, pass: (string, bool) -> Reached) {
    && (forall t: string {:trigger find(t, SPACE_QUOTE)} :: OverText(pass, t, find(t, SPACE_QUOTE)))
    && (forall t: string {:trigger find(t, QUOTE)} :: OverQuoted(pass, t, find(t, QUOTE)))
  }

  lemma FindFits()
    ensures Fits(Find(), PassOf())
  {
    forall t: string ensures OverText(PassOf(), t, Find()(t, SPACE_QUOTE)) {
      PassOverText(t);
    }
    forall t: string ensures OverQuoted(PassOf(), t, Find()(t, QUOTE)) {
      PassOverQuoted(t);
    }
  }

  // Each step of the scan agrees with the pass.
  lemma {:induction false} EndByPass(find: (string, string) -> nat, end: string -> Option<nat>, pass: (string, bool) -> Reached, t: string)
    requires Fits(find, pass) && IsEnd(find, end)
    ensures end(t) == EndAt(pass(t, false))
    decreases |t|
  {
    var first := find(t, SPACE_QUOTE);
    if first < |t| && t[first] != ' ' {
      var rest := t[first + 1..];
      var close := find(rest, QUOTE);
      if close < |rest| {
        EndByPass(find, end, pass, rest[close + 1..]);
      }
    }
  }

  lemma EndIsPass(t: string)
    ensures EndOf(t) == EndAt(Pass(t, false))
  {
    FindFits();
    EndOfAllIsEnd(Find());
    EndByPass(Find(), EndOfAll(Find()), PassOf(), t);
  }

  // Where a parameter ends: at the first space that is neither escaped nor behind an odd number of
  // quotes. Without such a space it ends with the text, or not at all if the quotes are odd.
  lemma EndMeaning(t: string)
    ensures forall i :: 0 <= i < |t| ==> (EndOf(t) == Some(i) <==> Outside(t, i, false) && forall j :: 0 <= j < i ==> !Outside(t, j, false))
    ensures EndOf(t) == Some(|t|) <==> Quotes(t) % 2 == 0 && forall j :: 0 <= j < |t| ==> !Outside(t, j, false)
    ensures EndOf(t) == None <==> Quotes(t) % 2 == 1 && forall j :: 0 <= j < |t| ==> !Outside(t, j, false)
  {
    EndIsPass(t);
    PassMeaning(t, false);
  }

  // ----- which lines are refused

  lemma {:induction false} QuotesAdd(p: string, q: string)
    requires Closed(p)
    ensures Quotes(p + q) == Quotes(p) + Quotes(q)
  {
    if p == [] {
      assert p + q == q;
    } else if p[0] == '^' {
      assert (p + q)[2..] == p[2..] + q;
      QuotesAdd(p[2..], q);
    } else {
      assert (p + q)[1..] == p[1..] + q;
      QuotesAdd(p[1..], q);
    }
  }

  lemma {:induction false} SkipKeepsQuotes(t: string)
    requires t != [] && t[|t| - 1] != ' '
    ensures var u := SkipSpaces(t); Quotes(u) == Quotes(t) && u != [] && u[|u| - 1] == t[|t| - 1] && |u| <= |t|
  {
    if t[0] == ' ' {
      SkipKeepsQuotes(t[1..]);
    }
  }

  // The quotes of a text are balanced exactly if the parse of its parameters reaches the end.
  lemma {:induction false} CompleteIffEven(t: string)
    requires t == [] || t[|t| - 1] != ' '
    ensures AllParams(t).complete <==> Quotes(t) % 2 == 0
    decreases |t|
  {
    if t != [] {
      var u := SkipSpaces(t);
      SkipKeepsQuotes(t);
      EndMeaning(u);
      if EndOf(u).Some? {
        CutAtEnd(u, EndOf(u).value);
        CompleteIffEven(u[EndOf(u).value..]);
      }
    }
  }

  lemma CutAtEnd(u: string, i: nat)
    requires EndOf(u) == Some(i) && u != [] && u[|u| - 1] != ' '
    ensures i <= |u| && Quotes(u[i..]) % 2 == Quotes(u) % 2
    ensures u[i..] == [] || u[i..][|u[i..]| - 1] != ' '
  {
    EvenBeforeEnd(u, i);
    assert u == u[..i] + u[i..];
    ParityBehind(u[..i], u[i..]);
  }

  lemma EvenBeforeEnd(u: string, i: nat)
    requires EndOf(u) == Some(i)
    ensures i <= |u| && Quotes(u[..i]) % 2 == 0 && (i < |u| ==> Closed(u[..i]))
  {
    EndIsPass(u);
    PassMeaning(u, false);
    assert u[..|u|] == u;
  }

  lemma ParityBehind(p: string, q: string)
    requires (q == [] || Closed(p)) && Quotes(p) % 2 == 0
    ensures Quotes(q) % 2 == Quotes(p + q) % 2
  {
    if q == [] {
      assert p + q == p;
    } else {
      QuotesAdd(p, q);
    }
  }

  lemma {:induction false} LeftTrimKeepsQuotes(t: string)
    ensures Quotes(TrimmedLeft(t)) == Quotes(t)
  {
    if t != [] && Blank(t[0]) {
      LeftTrimKeepsQuotes(t[1..]);
    }
  }

  lemma {:induction false} LastBlankNoQuote(t: string)
    requires t != [] && Blank(t[|t| - 1])
    ensures Quotes(t[..|t| - 1]) == Quotes(t)
  {
    var front := t[..|t| - 1];
    if |t| > 1 {
      if t[0] == '^' {
        if |t| > 2 {
          LastBlankNoQuote(t[2..]);
          assert front[2..] == t[2..][..|t| - 3];
        }
      } else {
        LastBlankNoQuote(t[1..]);
        assert front[1..] == t[1..][..|t| - 2];
      }
    }
  }

  lemma {:induction false} RightTrimKeepsQuotes(t: string)
    ensures Quotes(TrimmedRight(t)) == Quotes(t)
  {
    if t != [] && Blank(t[|t| - 1]) {
      LastBlankNoQuote(t);
      RightTrimKeepsQuotes(t[..|t| - 1]);
    }
  }

  // A line is refused exactly if the number of its quotes that no escape character precedes is odd.
  lemma RefusedIff(line: string, strip: bool)
    ensures ParsedArgs(line, strip) == None <==> Quotes(line) % 2 == 1
  {
    LeftTrimKeepsQuotes(line);
    RightTrimKeepsQuotes(TrimmedLeft(line));
    CompleteIffEven(Trimmed(line));
  }

  // ----- what quotes protect

  // An argument as it is typed: escaped, or with a quoted text somewhere in it.
  datatype Item = Bare(text: string) | Quoted(before: string, text: string, behind: string)

  predicate Plain(t: string) { forall i :: 0 <= i < |t| ==> t[i] != '"' && t[i] != '^' }

  predicate NoSpace(t: string) { forall i :: 0 <= i < |t| ==> t[i] != ' ' }

  // Between quotes everything may stand but quotes and escape characters; outside them no space either.
  predicate Fine(item: Item) {
    match item
    case Bare(a) => a != []
    case Quoted(a, q, b) => Plain(a) && NoSpace(a) && Plain(q) && Plain(b) && NoSpace(b)
  }

  function Typed(item: Item): string {
    match item
    case Bare(a) => Escaped(a)
    case Quoted(a, q, b) => a + QUOTE + q + QUOTE + b
  }

  // What the program is given.
  function Value(item: Item, strip: bool): string {
    match item
    case Bare(a) => a
    case Quoted(a, q, b) => if strip then a + q + b else a + QUOTE + q + QUOTE + b
  }

  lemma {:induction false} PassPlain(s: string, t: string, open: bool)
    requires Plain(s) && (open || NoSpace(s))
    ensures Pass(s + t, open) == Behind(|s|, Pass(t, open))
  {
    if s == [] {
      assert s + t == t;
    } else {
      assert (s + t)[1..] == s[1..] + t;
      PassPlain(s[1..], t, open);
    }
  }

  lemma PassQuote(t: string, open: bool)
    ensures Pass(QUOTE + t, open) == Behind(1, Pass(t, !open))
  {
    assert (QUOTE + t)[1..] == t;
  }

  lemma {:induction false} UnescapedPlain(s: string, t: string, strip: bool)
    requires Plain(s)
    ensures Unescaped(s + t, strip) == s + Unescaped(t, strip)
  {
    if s == [] {
      assert s + t == t;
    } else {
      assert (s + t)[1..] == s[1..] + t;
      UnescapedPlain(s[1..], t, strip);
    }
  }

  lemma UnescapedQuote(t: string, strip: bool)
    ensures Unescaped(QUOTE + t, strip) == (if strip then [] else QUOTE) + Unescaped(t, strip)
  {
    assert (QUOTE + t)[1..] == t;
  }

  ghost predicate PassesOver(pass: (string, bool) -> Reached) {
    && (forall s: string, t: string, open: bool {:trigger pass(s + t, open)} ::
          Plain(s) && (open || NoSpace(s)) ==> pass(s + t, open) == Behind(|s|, pass(t, open)))
    && (forall t: string, open: bool {:trigger pass(QUOTE + t, open)} :: pass(QUOTE + t, open) == Behind(1, pass(t, !open)))
  }

  lemma PassPasses()
    ensures PassesOver(PassOf())
  {
    forall s: string, t: string, open: bool | Plain(s) && (open || NoSpace(s))
      ensures PassOf()(s + t, open) == Behind(|s|, PassOf()(t, open))
    {
      PassPlain(s, t, open);
    }
    forall t: string, open: bool ensures PassOf()(QUOTE + t, open) == Behind(1, PassOf()(t, !open)) {
      PassQuote(t, open);
    }
  }

  lemma QuotedPass(pass: (string, bool) -> Reached, a: string, q: string, b: string, t: string)
    requires PassesOver(pass) && Fine(Quoted(a, q, b)) && pass(t, false) == Reached(0, false)
    ensures pass(a + (QUOTE + (q + (QUOTE + (b + t)))), false) == Reached(|a + QUOTE + q + QUOTE + b|, false)
  {
    assert pass(b + t, false) == Reached(|b|, false);
    assert pass(QUOTE + (b + t), true) == Reached(1 + |b|, false);
    assert pass(q + (QUOTE + (b + t)), true) == Reached(|q| + 1 + |b|, false);
    assert pass(QUOTE + (q + (QUOTE + (b + t))), false) == Reached(1 + |q| + 1 + |b|, false);
  }

  lemma QuotedEnds(a: string, q: string, b: string, t: string)
    requires Fine(Quoted(a, q, b)) && (t == [] || t[0] == ' ')
    ensures EndOf(a + (QUOTE + (q + (QUOTE + (b + t))))) == Some(|a + QUOTE + q + QUOTE + b|)
  {
    PassPasses();
    QuotedPass(PassOf(), a, q, b, t);
    EndIsPass(a + (QUOTE + (q + (QUOTE + (b + t)))));
  }

  // What unescaping does to plain text and to a quote, for an unknown function.
  ghost predicate Unescapes(un: string -> string, strip: bool) {
    && un([]) == []
    && (forall s: string, t: string {:trigger un(s + t)} :: Plain(s) ==> un(s + t) == s + un(t))
    && (forall t: string {:trigger un(QUOTE + t)} :: un(QUOTE + t) == (if strip then [] else QUOTE) + un(t))
  }

  lemma QuotedBy(un: string -> string, strip: bool, a: string, q: string, b: string)
    requires Unescapes(un, strip) && Plain(a) && Plain(q) && Plain(b)
    ensures un(a + QUOTE + q + QUOTE + b) == if strip then a + q + b else a + QUOTE + q + QUOTE + b
  {
    assert b + [] == b;
    assert un(b + []) == b;
    assert un(QUOTE + b) == (if strip then [] else QUOTE) + b;
    assert un(QUOTE + (q + (QUOTE + b))) == (if strip then [] else QUOTE) + un(q + (QUOTE + b));
    assert a + QUOTE + q + QUOTE + b == a + (QUOTE + (q + (QUOTE + b)));
    if strip {
      assert a + (q + b) == a + q + b;
    }
  }

  lemma QuotedUnescapes(a: string, q: string, b: string, strip: bool)
    requires Fine(Quoted(a, q, b))
    ensures Unescaped(a + QUOTE + q + QUOTE + b, strip) == Value(Quoted(a, q, b), strip)
  {
    var un := (t: string) => Unescaped(t, strip);
    forall s: string, t: string | Plain(s) ensures un(s + t) == s + un(t) {
      UnescapedPlain(s, t, strip);
    }
    forall t: string ensures un(QUOTE + t) == (if strip then [] else QUOTE) + un(t) {
      UnescapedQuote(t, strip);
    }
    QuotedBy(un, strip, a, q, b);
  }

  // A typed argument in front of a space or of the end of the line is one parameter, which unescapes
  // to its value.
  lemma ItemIsOneParam(item: Item, t: string, strip: bool)
    requires Fine(item) && (t == [] || t[0] == ' ')
    ensures NextParam(Typed(item) + t) == Param(Typed(item), t)
    ensures Unescaped(Typed(item), strip) == Value(item, strip) && Typed(item) != []
  {
    match item
    case Bare(a) =>
      EscapedIsOneParam(a, t, strip);
    case Quoted(a, q, b) =>
      QuotedUnescapes(a, q, b, strip);
      QuotedEnds(a, q, b, t);
      QuotedParam(a, q, b, t);
  }

  lemma QuotedParam(a: string, q: string, b: string, t: string)
    requires NoSpace(a)
    requires EndOf(a + (QUOTE + (q + (QUOTE + (b + t))))) == Some(|a + QUOTE + q + QUOTE + b|)
    ensures var raw := a + QUOTE + q + QUOTE + b; NextParam(raw + t) == Param(raw, t)
  {
    var raw := a + QUOTE + q + QUOTE + b;
    assert raw + t == a + (QUOTE + (q + (QUOTE + (b + t))));
    assert raw[0] == if a == [] then '"' else a[0];
    RawParam(raw, t);
  }

  lemma RawParam(raw: string, t: string)
    requires raw != [] && raw[0] != ' ' && EndOf(raw + t) == Some(|raw|)
    ensures NextParam(raw + t) == Param(raw, t)
  {
    var s := raw + t;
    assert s[0] == raw[0];
    assert SkipSpaces(s) == s;
    assert s[..|raw|] == raw && s[|raw|..] == t;
  }

  // ----- a line of typed arguments

  function TypedLine(items: seq<Item>): string
    decreases |items|, 0
  {
    if items == [] then [] else Typed(items[0]) + TypedTail(items[1..])
  }

  function TypedTail(items: seq<Item>): string
    decreases |items|, 1
  {
    if items == [] then [] else [' '] + TypedLine(items)
  }

  function Values(items: seq<Item>, strip: bool): (r: seq<string>)
    ensures |r| == |items|
  {
    seq(|items|, i requires 0 <= i < |items| => Value(items[i], strip))
  }

  // The text parses to these arguments.
  predicate ParsesTo(t: string, strip: bool, values: seq<string>) {
    AllParams(t).complete && UnescapedAll(AllParams(t).raws, strip) == values
  }

  lemma {:induction false} TypedLineParses(items: seq<Item>, strip: bool)
    requires forall i :: 0 <= i < |items| ==> Fine(items[i])
    ensures ParsesTo(TypedLine(items), strip, Values(items, strip))
    ensures items != [] ==> TypedLine(items) != []
    decreases |items|
  {
    if items == [] {
      assert AllParams([]) == Params([], true);
    } else {
      var rest := items[1..];
      TypedLineParses(rest, strip);
      TailParses(rest, strip);
      ItemAndTail(items[0], TypedTail(rest), strip, Values(rest, strip));
      assert Values(items, strip) == [Value(items[0], strip)] + Values(rest, strip);
    }
  }

  lemma TailParses(rest: seq<Item>, strip: bool)
    requires ParsesTo(TypedLine(rest), strip, Values(rest, strip)) && (rest != [] ==> TypedLine(rest) != [])
    ensures ParsesTo(TypedTail(rest), strip, Values(rest, strip))
    ensures TypedTail(rest) == [] || TypedTail(rest)[0] == ' '
  {
    if rest != [] {
      LeadingSpace(TypedLine(rest));
    }
  }

  lemma ItemAndTail(item: Item, tail: string, strip: bool, values: seq<string>)
    requires Fine(item) && (tail == [] || tail[0] == ' ') && ParsesTo(tail, strip, values)
    ensures ParsesTo(Typed(item) + tail, strip, [Value(item, strip)] + values) && Typed(item) + tail != []
  {
    ItemIsOneParam(item, tail, strip);
    OneMore(Typed(item) + tail, Typed(item), tail);
    FirstUnescaped(Typed(item), AllParams(tail).raws, strip);
  }

  lemma FirstUnescaped(raw: string, more: seq<string>, strip: bool)
    ensures UnescapedAll([raw] + more, strip) == [Unescaped(raw, strip)] + UnescapedAll(more, strip)
  {
  }

  // Any mixture of escaped and quoted arguments is read as their values, quoted spaces and quoted
  // empty texts included, if the line has no blank at its ends for trimming to take.
  lemma TypedArguments(items: seq<Item>, strip: bool)
    requires forall i :: 0 <= i < |items| ==> Fine(items[i])
    requires var t := TypedLine(items); t == [] || (!Blank(t[0]) && !Blank(t[|t| - 1]))
    ensures ParsedArgs(TypedLine(items), strip) == Some(Values(items, strip))
  {
    TypedLineParses(items, strip);
  }

  // ----- the other helpers

  // An unescaped text is unescaped piece by piece, and a last escape character that escapes nothing
  // is dropped.
  lemma {:induction false} UnescapedAdds(p: string, q: string, strip: bool)
    requires Closed(p)
    ensures Unescaped(p + q, strip) == Unescaped(p, strip) + Unescaped(q, strip)
    ensures Unescaped(['^'], strip) == []
  {
    if p == [] {
      assert p + q == q;
    } else if p[0] == '^' {
      assert (p + q)[2..] == p[2..] + q;
      UnescapedAdds(p[2..], q, strip);
    } else {
      assert (p + q)[1..] == p[1..] + q;
      UnescapedAdds(p[1..], q, strip);
    }
  }

  // Trimming takes spaces and tabs from both ends, and leaves none there.
  lemma TrimmedMeaning(t: string) returns (a: string, b: string)
    ensures t == a + Trimmed(t) + b
    ensures forall i :: 0 <= i < |a| ==> a[i] == ' ' || a[i] == '\t'
    ensures forall i :: 0 <= i < |b| ==> b[i] == ' ' || b[i] == '\t'
    ensures var m := Trimmed(t);
            m == [] || (m[0] != ' ' && m[0] != '\t' && m[|m| - 1] != ' ' && m[|m| - 1] != '\t')
  {
    var left := TrimmedLeft(t);
    a := TrimmedOnLeft(t);
    b := TrimmedOnRight(left);
    FrontOf(left, TrimmedRight(left), b);
  }

  lemma FrontOf(left: string, m: string, b: string)
    requires left == m + b
    ensures m == [] || m[0] == left[0]
  {
  }

  lemma {:induction false} TrimmedOnLeft(t: string) returns (a: string)
    ensures t == a + TrimmedLeft(t) && forall i :: 0 <= i < |a| ==> a[i] == ' ' || a[i] == '\t'
    ensures TrimmedLeft(t) == [] || (TrimmedLeft(t)[0] != ' ' && TrimmedLeft(t)[0] != '\t')
  {
    a := [];
    if t != [] && Blank(t[0]) {
      var more := TrimmedOnLeft(t[1..]);
      a := [t[0]] + more;
    }
  }

  lemma {:induction false} TrimmedOnRight(t: string) returns (b: string)
    ensures t == TrimmedRight(t) + b && forall i :: 0 <= i < |b| ==> b[i] == ' ' || b[i] == '\t'
    ensures var m := TrimmedRight(t); m == [] || (m[|m| - 1] != ' ' && m[|m| - 1] != '\t')
  {
    b := [];
    if t != [] && Blank(t[|t| - 1]) {
      var more := TrimmedOnRight(t[..|t| - 1]);
      b := more + [t[|t| - 1]];
    }
  }
}
