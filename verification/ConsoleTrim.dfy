/** Exactly which arguments survive a trip through an escaped command line: the line is trimmed
    before it is split, and trimming does not know about escapes. */
module ConsoleTrim {
  import opened Bytes
  import opened ConsoleSpec

  // How many characters are left when the escape characters are gone.
  function Weight(t: string): nat { |Unescaped(t, false)| }

  // No escape character at the end without its partner.
  predicate Closed(p: string) {
    p == [] || if p[0] == '^' then |p| >= 2 && Closed(p[2..]) else Closed(p[1..])
  }

  lemma {:induction false} WeightAdds(p: string, q: string)
    requires Closed(p)
    ensures Weight(p + q) == Weight(p) + Weight(q)
  {
    if p == [] {
      assert p + q == q;
    } else if p[0] == '^' {
      assert (p + q)[2..] == p[2..] + q;
      WeightAdds(p[2..], q);
    } else {
      assert (p + q)[1..] == p[1..] + q;
      WeightAdds(p[1..], q);
    }
  }

  lemma {:induction false} ClosedAdds(p: string, q: string)
    requires Closed(p) && Closed(q)
    ensures Closed(p + q)
  {
    if p == [] {
      assert p + q == q;
    } else if p[0] == '^' {
      assert (p + q)[2..] == p[2..] + q;
      ClosedAdds(p[2..], q);
    } else {
      assert (p + q)[1..] == p[1..] + q;
      ClosedAdds(p[1..], q);
    }
  }

  // What is found does not stand behind an escape character.
  lemma {:induction false} FirstClosed(t: string, list: string)
    requires First(t, list, '^') < |t|
    ensures Closed(t[..First(t, list, '^')]) && t[First(t, list, '^')] in list
  {
    var r := First(t, list, '^');
    if t[0] == '^' {
      FirstClosed(t[2..], list);
      assert t[..r][2..] == t[2..][..r - 2];
    } else if t[0] !in list {
      FirstClosed(t[1..], list);
      assert t[..r][1..] == t[1..][..r - 1];
    }
  }

  ghost predicate FindsClosed(find: (string, string) -> nat) {
    forall t: string, list: string {:trigger find(t, list)} ::
      find(t, list) < |t| ==> Closed(t[..find(t, list)]) && t[find(t, list)] in list
  }

  lemma {:induction false} EndClosedBy(find: (string, string) -> nat, t: string)
    requires FindsClosed(find) && EndOfBy(find, t).Some? && EndOfBy(find, t).value < |t|
    ensures Closed(t[..EndOfBy(find, t).value]) && t[EndOfBy(find, t).value] == ' '
    decreases |t|, 1
  {
    var first := find(t, SPACE_QUOTE);
    if t[first] == ' ' {
      assert EndOfBy(find, t).value == first;
    } else {
      EndClosedBehindQuote(find, t, first);
    }
  }

  lemma {:induction false} EndClosedBehindQuote(find: (string, string) -> nat, t: string, first: nat)
    requires FindsClosed(find) && EndOfBy(find, t).Some? && EndOfBy(find, t).value < |t|
    requires first == find(t, SPACE_QUOTE) < |t| && t[first] != ' '
    ensures Closed(t[..EndOfBy(find, t).value]) && t[EndOfBy(find, t).value] == ' '
    decreases |t|, 0
  {
    var rest := t[first + 1..];
    var close := find(rest, QUOTE);
    var tail := rest[close + 1..];
    var end := EndOfBy(find, tail).value;
    assert EndOfBy(find, t).value == first + 1 + close + 1 + end;
    EndClosedBy(find, tail);
    PartsClosed(t, first, close, end);
  }

  // A parameter that ends before the text does ends at a space, outside any escape.
  lemma EndClosed(t: string)
    requires EndOf(t).Some? && EndOf(t).value < |t|
    ensures Closed(t[..EndOf(t).value]) && t[EndOf(t).value] == ' '
  {
    forall s: string, list: string | Find()(s, list) < |s|
      ensures Closed(s[..Find()(s, list)]) && s[Find()(s, list)] in list
    {
      FirstClosed(s, list);
    }
    EndClosedBy(Find(), t);
  }

  lemma PartsClosed(t: string, first: nat, close: nat, end: nat)
    requires first + 1 + close + 1 + end < |t| && t[first] == '"' && t[first + 1..][close] == '"'
    requires Closed(t[..first]) && Closed(t[first + 1..][..close])
    requires Closed(t[first + 1..][close + 1..][..end]) && t[first + 1..][close + 1..][end] == ' '
    ensures Closed(t[..first + 1 + close + 1 + end]) && t[first + 1 + close + 1 + end] == ' '
  {
    var rest := t[first + 1..];
    QuotedParts(t, first, close, end);
    QuotedClosed(t[..first], rest[..close], rest[close + 1..][..end]);
  }

  lemma QuotedParts(t: string, first: nat, close: nat, end: nat)
    requires first + 1 + close + 1 + end < |t| && t[first] == '"' && t[first + 1..][close] == '"'
    ensures var rest := t[first + 1..];
            var tail := rest[close + 1..];
            && t[..first + 1 + close + 1 + end] == t[..first] + QUOTE + rest[..close] + QUOTE + tail[..end]
            && tail[end] == t[first + 1 + close + 1 + end]
  {
  }

  lemma QuotedClosed(a: string, b: string, c: string)
    requires Closed(a) && Closed(b) && Closed(c)
    ensures Closed(a + QUOTE + b + QUOTE + c)
  {
    assert Closed(QUOTE);
    ClosedAdds(a, QUOTE);
    ClosedAdds(a + QUOTE, b);
    ClosedAdds(a + QUOTE + b, QUOTE);
    ClosedAdds(a + QUOTE + b + QUOTE, c);
  }

  // ----- a parse never yields more than the weight of the text

  // The characters of the arguments, and one for each argument.
  function Total(args: seq<string>): nat {
    if args == [] then 0 else |args[0]| + 1 + Total(args[1..])
  }

  lemma {:induction false} StripShortens(p: string)
    ensures |Unescaped(p, true)| <= |Unescaped(p, false)|
  {
    if p != [] {
      if p[0] == '^' {
        if |p| > 1 {
          StripShortens(p[2..]);
        }
      } else {
        StripShortens(p[1..]);
      }
    }
  }

  lemma {:induction false} SpacesCount(t: string)
    ensures Weight(SkipSpaces(t)) <= Weight(t)
    ensures t != [] && t[0] == ' ' ==> Weight(SkipSpaces(t)) < Weight(t)
  {
    if t != [] && t[0] == ' ' {
      SpacesCount(t[1..]);
    }
  }

  lemma {:induction false} ParseIsLight(t: string, strip: bool)
    requires AllParams(t).complete
    ensures t == [] || Total(UnescapedAll(AllParams(t).raws, strip)) <= Weight(SkipSpaces(t)) + 1
    ensures t == [] ==> AllParams(t).raws == []
    decreases |t|
  {
    if t != [] {
      var (raw, rest) := (NextParam(t).raw, NextParam(t).rest);
      var more := AllParams(rest).raws;
      ParseIsLight(rest, strip);
      UnescapedAllStep(raw, more, strip);
      StripShortens(raw);
      ParamIsLight(t);
      assert rest == [] ==> Total(UnescapedAll(more, strip)) == 0;
    }
  }

  // A parameter and what follows it, with at least one space in between.
  lemma ParamIsLight(t: string)
    requires NextParam(t).Param?
    ensures var (raw, rest) := (NextParam(t).raw, NextParam(t).rest);
            && (rest != [] ==> Weight(raw) + Weight(SkipSpaces(rest)) < Weight(SkipSpaces(t)))
            && (rest == [] ==> Weight(raw) == Weight(SkipSpaces(t)))
  {
    var u := SkipSpaces(t);
    var (raw, rest) := (NextParam(t).raw, NextParam(t).rest);
    assert u == raw + rest;
    if rest != [] {
      EndClosed(u);
      WeightAdds(raw, rest);
      SpacesCount(rest);
    } else {
      assert raw + rest == raw;
    }
  }

  lemma UnescapedAllStep(raw: string, more: seq<string>, strip: bool)
    ensures Total(UnescapedAll([raw] + more, strip)) == |Unescaped(raw, strip)| + 1 + Total(UnescapedAll(more, strip))
  {
    assert UnescapedAll([raw] + more, strip)[1..] == UnescapedAll(more, strip);
  }

  // ----- trimming takes weight away

  lemma {:induction false} LastCharCounts(t: string)
    requires t != [] && t[|t| - 1] != '^'
    ensures Weight(t[..|t| - 1]) < Weight(t)
  {
    var front := t[..|t| - 1];
    if t[0] == '^' {
      if |t| > 2 {
        assert front[2..] == t[2..][..|t| - 3];
        LastCharCounts(t[2..]);
      }
    } else if |t| > 1 {
      assert front[1..] == t[1..][..|t| - 2];
      LastCharCounts(t[1..]);
    }
  }

  lemma {:induction false} TrimRightIsLight(t: string)
    ensures Weight(TrimmedRight(t)) <= Weight(t)
    ensures t != [] && Blank(t[|t| - 1]) ==> Weight(TrimmedRight(t)) < Weight(t)
  {
    if t != [] && Blank(t[|t| - 1]) {
      TrimRightIsLight(t[..|t| - 1]);
      LastCharCounts(t);
    }
  }

  lemma {:induction false} TrimLeftIsLight(t: string)
    ensures Weight(TrimmedLeft(t)) <= Weight(t)
    ensures t != [] && Blank(t[0]) ==> Weight(TrimmedLeft(t)) < Weight(t)
    ensures TrimmedLeft(t) != [] ==> TrimmedLeft(t)[|TrimmedLeft(t)| - 1] == t[|t| - 1]
  {
    if t != [] && Blank(t[0]) {
      TrimLeftIsLight(t[1..]);
    }
  }

  // The weight of a line of escaped arguments.
  lemma {:induction false} LineWeight(args: seq<string>)
    requires NonEmpty(args) && args != []
    ensures Weight(Line(args)) + 1 == Total(args)
  {
    var (e, rest) := (Escaped(args[0]), args[1..]);
    UnescapedEscaped(args[0], false);
    EscapedClosed(args[0]);
    LineStarts(args);
    WeightAdds(e, Tail(rest));
    if rest != [] {
      LineWeight(rest);
      assert Closed([' ']) && Weight([' ']) == 1;
      WeightAdds([' '], Line(rest));
    }
  }

  lemma {:induction false} EscapedClosed(a: string)
    ensures Closed(Escaped(a))
  {
    if a != [] {
      var (s, rest) := (Escaped(a), Escaped(a[1..]));
      EscapedClosed(a[1..]);
      if Special(a[0]) {
        assert s[2..] == rest;
      } else {
        assert s[1..] == rest;
      }
    }
  }

  // ----- the theorem

  // A list of non-empty arguments, escaped and joined with spaces, is parsed back to itself
  // exactly when the first does not begin with a tab and the last does not end with a space
  // or a tab.
  lemma RoundTripIff(args: seq<string>, strip: bool)
    requires NonEmpty(args)
    ensures ParsedArgs(Line(args), strip) == Some(args) <==> SurvivesTrim(args)
  {
    if SurvivesTrim(args) {
      RoundTrip(args, strip);
    } else {
      var t := Line(args);
      LastOfLine(args);
      LineStarts(args);
      LineWeight(args);
      var left := TrimmedLeft(t);
      TrimLeftIsLight(t);
      TrimRightIsLight(left);
      assert Weight(Trimmed(t)) < Weight(t);
      if AllParams(Trimmed(t)).complete {
        ParseIsLight(Trimmed(t), strip);
        SpacesCount(Trimmed(t));
      }
    }
  }
}
