/** The kernel command line that Application/UefiAvb/libavb/avb_slot_verify.c returns: which lines it
    holds, in which order, and what they are joined with. */
module SlotCmdline {
  import opened Bytes
  import opened AvbTypes
  import opened SlotSpec

  // ----- the descriptors that a call visits, in their order, those of chained images included

  ghost function VisitedByImage(c: Config, top: nat, location: nat, text: string, nameLen: nat, key: Option<string>, d: Data): seq<Descriptor>
    requires nameLen <= |text|
    decreases Rank(location, text), 1, 0
  {
    if !c.ops.utf8(text[..nameLen]) then []
    else
      match Find(c, location, text[..nameLen], IsVbmeta(text))
      case NotFound(_) => []
      case TryBoot => VisitedByImage(c, 0, 0, "boot", 4, None, d)
      case FoundImage(v) =>
        var check := Check(c, location, key, v);
        if check.Stop? || |d.images| == MAX_VBMETA_IMAGES || v.flags % 4 >= 2 then []
        else
          var d1 := d.(images := d.images + [Image(CString(text), v, v.verdict)]);
          VisitedByWalk(c, if location == 0 then v.flags else top, location, v, 0, check.ret, d1)
  }

  ghost function VisitedByWalk(c: Config, top: nat, location: nat, v: Vbmeta, n: nat, ret: VerifyResult, d: Data): seq<Descriptor>
    requires n <= |v.descriptors|
    decreases if location == 0 then 1 else 0, 0, |v.descriptors| - n
  {
    if n == |v.descriptors| then []
    else
      var desc := v.descriptors[n];
      var one := Visit(c, top, location, desc, ret, d);
      VisitedFrom(c, top, location, desc, d) + if one.0.Stop? then [] else VisitedByWalk(c, top, location, v, n + 1, one.0.ret, one.1)
  }

  // The descriptor itself, and what the image that it chains to leads to.
  ghost function VisitedFrom(c: Config, top: nat, location: nat, desc: Descriptor, d: Data): seq<Descriptor>
    decreases if location == 0 then 1 else 0, 0, 0
  {
    [desc] +
    if desc.ChainDesc? && location == 0 && desc.valid && desc.location != 0 && desc.nameLen <= |desc.text| then
      VisitedByImage(c, top, desc.location, desc.text, desc.nameLen, Some(desc.key), d)
    else []
  }

  // A walk over descriptors without chains that goes on visits each of them, in order.
  lemma {:induction false} VisitedAll(c: Config, top: nat, location: nat, v: Vbmeta, n: nat, ret: VerifyResult, d: Data)
    requires n <= |v.descriptors| && Walk(c, top, location, v, n, ret, d).0.Continue?
    requires forall i :: n <= i < |v.descriptors| ==> !v.descriptors[i].ChainDesc?
    ensures VisitedByWalk(c, top, location, v, n, ret, d) == v.descriptors[n..]
    decreases |v.descriptors| - n
  {
    if n < |v.descriptors| {
      var one := Visit(c, top, location, v.descriptors[n], ret, d);
      VisitedAll(c, top, location, v, n + 1, one.0.ret, one.1);
    }
  }

  // ----- their lines

  // A line that may be used only with hashtrees counts if bit 0 of the flags is clear, one that may be
  // used only without them if it is set, and one without restriction always.
  predicate Counts(c: Config, desc: Descriptor, flags: nat) {
    && desc.CmdlineDesc? && desc.valid && c.ops.utf8(desc.line)
    && (desc.unlessDisabled ==> flags % 2 == 0)
    && (desc.onlyDisabled ==> flags % 2 == 1)
  }

  function LinesOf(c: Config, visited: seq<Descriptor>, flags: nat): seq<string> {
    if visited == [] then []
    else (if Counts(c, visited[0], flags) then [visited[0].line] else []) + LinesOf(c, visited[1..], flags)
  }

  // Lines joined by single spaces.
  function Spaced(lines: seq<string>): string
    requires lines != []
  {
    if |lines| == 1 then lines[0] else lines[0] + " " + Spaced(lines[1..])
  }

  function Cmdline(lines: seq<string>): Option<string> {
    if lines == [] then None else Some(Spaced(lines))
  }

  lemma {:induction false} SpacedSnoc(lines: seq<string>, line: string)
    requires lines != []
    ensures Spaced(lines + [line]) == Spaced(lines) + " " + line
  {
    if |lines| > 1 {
      assert (lines + [line])[1..] == lines[1..] + [line];
      SpacedSnoc(lines[1..], line);
    }
  }

  lemma AddLineAppends(d: Data, lines: seq<string>, line: string)
    requires d.cmdline == Cmdline(lines)
    ensures AddLine(d, line).cmdline == Cmdline(lines + [line])
  {
    if lines != [] {
      SpacedSnoc(lines, line);
    }
  }

  lemma {:induction false} LinesConcat(c: Config, a: seq<Descriptor>, b: seq<Descriptor>, flags: nat)
    ensures LinesOf(c, a + b, flags) == LinesOf(c, a, flags) + LinesOf(c, b, flags)
  {
    if a == [] {
      assert a + b == b;
    } else {
      assert (a + b)[1..] == a[1..] + b;
      LinesConcat(c, a[1..], b, flags);
    }
  }

  // ----- every step appends the lines of what it visited

  lemma {:induction false} ImageCmdline(c: Config, top: nat, location: nat, text: string, nameLen: nat, key: Option<string>, d: Data,
                                        lines: seq<string>)
    requires nameLen <= |text| && location != 0 && d.cmdline == Cmdline(lines)
    ensures LoadVbmeta(c, top, location, text, nameLen, key, d).1.cmdline
         == Cmdline(lines + LinesOf(c, VisitedByImage(c, top, location, text, nameLen, key, d), top))
    decreases 0, 1, 0
  {
    assert lines + [] == lines;
    if c.ops.utf8(text[..nameLen]) {
      var found := Find(c, location, text[..nameLen], IsVbmeta(text));
      if found.FoundImage? {
        var v := found.vbmeta;
        var check := Check(c, location, key, v);
        if check.Continue? && |d.images| != MAX_VBMETA_IMAGES {
          var d1 := d.(images := d.images + [Image(CString(text), v, v.verdict)]);
          BitOne(v.flags);
          if VerificationDisabled(v.flags) {
            LoadRequestedExtends(c, 0, d1);
          } else {
            WalkCmdline(c, top, location, v, 0, check.ret, d1, lines);
          }
        }
      }
    }
  }

  lemma BitOne(flags: nat)
    ensures flags % 4 >= 2 <==> VerificationDisabled(flags)
  {
  }

  lemma {:induction false} WalkCmdline(c: Config, top: nat, location: nat, v: Vbmeta, n: nat, ret: VerifyResult, d: Data, lines: seq<string>)
    requires n <= |v.descriptors| && d.cmdline == Cmdline(lines)
    ensures Walk(c, top, location, v, n, ret, d).1.cmdline
         == Cmdline(lines + LinesOf(c, VisitedByWalk(c, top, location, v, n, ret, d), top))
    decreases if location == 0 then 1 else 0, 0, |v.descriptors| - n
  {
    if n == |v.descriptors| {
      assert lines + [] == lines;
    } else {
      var desc := v.descriptors[n];
      var one := Visit(c, top, location, desc, ret, d);
      var first := VisitedFrom(c, top, location, desc, d);
      var added := lines + LinesOf(c, first, top);
      VisitCmdline(c, top, location, desc, ret, d, lines);
      if one.0.Stop? {
        JoinLines(c, lines, first, [], top);
      } else {
        WalkCmdline(c, top, location, v, n + 1, one.0.ret, one.1, added);
        JoinLines(c, lines, first, VisitedByWalk(c, top, location, v, n + 1, one.0.ret, one.1), top);
      }
    }
  }

  lemma JoinLines(c: Config, lines: seq<string>, a: seq<Descriptor>, b: seq<Descriptor>, flags: nat)
    ensures lines + LinesOf(c, a + b, flags) == lines + LinesOf(c, a, flags) + LinesOf(c, b, flags)
    ensures b == [] ==> lines + LinesOf(c, a + b, flags) == lines + LinesOf(c, a, flags)
  {
    LinesConcat(c, a, b, flags);
    assert b == [] ==> a + b == a;
  }

  lemma {:induction false} VisitCmdline(c: Config, top: nat, location: nat, desc: Descriptor, ret: VerifyResult, d: Data, lines: seq<string>)
    requires d.cmdline == Cmdline(lines)
    ensures Visit(c, top, location, desc, ret, d).1.cmdline
         == Cmdline(lines + LinesOf(c, VisitedFrom(c, top, location, desc, d), top))
    decreases if location == 0 then 1 else 0, 0, 0
  {
    assert lines + [] == lines;
    OneDescriptor(c, desc, top);
    if desc.ChainDesc? && location == 0 && desc.valid && desc.location != 0 && desc.nameLen <= |desc.text| {
      var below := VisitedByImage(c, top, desc.location, desc.text, desc.nameLen, Some(desc.key), d);
      ImageCmdline(c, top, desc.location, desc.text, desc.nameLen, Some(desc.key), d, lines);
      JoinLines(c, lines, [desc], below, top);
    } else {
      assert VisitedFrom(c, top, location, desc, d) == [desc];
      if desc.CmdlineDesc? && Counts(c, desc, top) {
        AddLineAppends(d, lines, desc.line);
      }
    }
  }

  lemma OneDescriptor(c: Config, desc: Descriptor, flags: nat)
    ensures LinesOf(c, [desc], flags) == if Counts(c, desc, flags) then [desc.line] else []
  {
    assert [desc][1..] == [];
  }

  // ----- the whole call

  // What a first image leaves: the lines of everything visited, chosen by the flags of that image.
  lemma MainCmdline(c: Config, top: nat, text: string, nameLen: nat, d: Data)
    requires nameLen <= |text| && d == EmptyData()
    ensures var (ret, d') := LoadVbmeta(c, top, 0, text, nameLen, None, d);
            d'.images != [] ==>
              d'.cmdline == Cmdline(LinesOf(c, VisitedByImage(c, top, 0, text, nameLen, None, d), d'.images[0].vbmeta.flags))
    decreases Rank(0, text)
  {
    if c.ops.utf8(text[..nameLen]) {
      var found := Find(c, 0, text[..nameLen], IsVbmeta(text));
      if found.TryBoot? {
        assert !IsVbmeta("boot") by { assert "boot"[0] == 'b'; }
        MainCmdline(c, 0, "boot", 4, d);
      } else if found.FoundImage? {
        if Check(c, 0, None, found.vbmeta).Continue? {
          var image := Image(CString(text), found.vbmeta, found.vbmeta.verdict);
          BitOne(found.vbmeta.flags);
          FoundCmdline(c, found.vbmeta, text, d);
          assert d.images + [image] == [image];
        }
      }
    }
  }

  lemma FoundCmdline(c: Config, v: Vbmeta, text: string, d: Data)
    requires d == EmptyData() && Check(c, 0, None, v).Continue?
    ensures var d1 := d.(images := [Image(CString(text), v, v.verdict)]);
            var (disabled, walked) := (LoadRequested(c, 0, d1).1, Walk(c, v.flags, 0, v, 0, Check(c, 0, None, v).ret, d1).1);
            && disabled.cmdline == None && disabled.images == d1.images
            && walked.images != [] && walked.images[0].vbmeta == v
            && walked.cmdline == Cmdline(LinesOf(c, VisitedByWalk(c, v.flags, 0, v, 0, Check(c, 0, None, v).ret, d1), v.flags))
  {
    var d1 := d.(images := [Image(CString(text), v, v.verdict)]);
    LoadRequestedExtends(c, 0, d1);
    WalkExtends(c, v.flags, 0, v, 0, Check(c, 0, None, v).ret, d1);
    WalkCmdline(c, v.flags, 0, v, 0, Check(c, 0, None, v).ret, d1, []);
    assert forall lines: seq<string> :: [] + lines == lines;
    assert d1.images[0].vbmeta == v;
  }

  // Everything that a call visits.
  ghost function Visited(c: Config): seq<Descriptor> { VisitedByImage(c, 0, 0, "vbmeta", 6, None, EmptyData()) }

  // What the caller gets: the substituted text of the lines that count, joined by single spaces and
  // empty without any; when bit 1 of the flags of the first image is set, that of one fixed line.
  lemma SlotCmdline(c: Config, logging: bool)
    requires SlotVerify(c, logging).1.Some?
    ensures var d := SlotVerify(c, logging).1.value;
            && d.images != [] && d.cmdline.Some?
            && var flags := d.images[0].vbmeta.flags;
               var lines := LinesOf(c, Visited(c), flags);
               d.cmdline == c.ops.substitute(
                 if flags % 4 >= 2 then "root=PARTUUID=$(ANDROID_SYSTEM_PARTUUID)"
                 else if lines == [] then ""
                 else Spaced(lines))
  {
    var (ret, d) := LoadVbmeta(c, 0, 0, "vbmeta", 6, None, EmptyData());
    TopImageRecorded(c, 0, "vbmeta", 6, EmptyData());
    MainCmdline(c, 0, "vbmeta", 6, EmptyData());
    BitOne(d.images[0].vbmeta.flags);
  }

  // The last step fails without the lock state, where it is asked for, and when the text cannot be
  // substituted.
  predicate CanFinish(c: Config, flags: nat, line: string) {
    && (flags % 4 >= 2 || c.ops.unlocked.Got?)
    && c.ops.substitute(if flags % 4 >= 2 then "root=PARTUUID=$(ANDROID_SYSTEM_PARTUUID)" else line).Some?
  }

  lemma FinishGives(c: Config, ret: VerifyResult, d: Data, line: string)
    requires d.images != [] && line == if d.cmdline.None? then "" else d.cmdline.value
    ensures Finish(c, ret, d).1.Some? <==> CanFinish(c, d.images[0].vbmeta.flags, line)
  {
    BitOne(d.images[0].vbmeta.flags);
    assert IoCode(c.ops.unlocked) == VerifyOk <==> c.ops.unlocked.Got?;
    var text := if VerificationDisabled(d.images[0].vbmeta.flags) then "root=PARTUUID=$(ANDROID_SYSTEM_PARTUUID)" else line;
    assert c.ops.substitute(text).Some? || c.ops.substitute(text).None?;
  }

  // Data are given exactly after a result to go on with, if the last step succeeds.
  lemma DataGivenIff(c: Config, logging: bool, ret: VerifyResult, d: Data, line: string)
    requires (ret, d) == LoadVbmeta(c, 0, 0, "vbmeta", 6, None, EmptyData())
    requires line == if d.cmdline.None? then "" else d.cmdline.value
    ensures SlotVerify(c, logging).1.Some? <==>
              && (!logging || c.allow)
              && (ret == VerifyOk || (c.allow && ret in {VerifyVerification, VerifyRollbackIndex, VerifyKeyRejected}))
              && d.images != [] && CanFinish(c, d.images[0].vbmeta.flags, line)
  {
    TopImageRecorded(c, 0, "vbmeta", 6, EmptyData());
    if d.images != [] {
      FinishGives(c, ret, d, line);
    }
  }
}
