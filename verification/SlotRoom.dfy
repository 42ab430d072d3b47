/** How much room a slot takes in the fixed-size lists, counted before it is verified: with enough
    room avb_slot_verify returns OK exactly for an accepted slot. */
module SlotRoom {
  import opened Bytes
  import opened AvbTypes
  import opened SlotSpec
  import opened SlotProofs
  import opened SlotExact

  // Images, loaded partitions and command-line substitutions.
  datatype Need = Need(images: nat, loaded: nat, substs: nat) {
    function Plus(n: Need): Need { Need(images + n.images, loaded + n.loaded, substs + n.substs) }
  }

  const NOTHING := Need(0, 0, 0)

  // At most one image per chain descriptor, one partition per hash descriptor that was asked for,
  // and one substitution per hashtree descriptor of the main image without root digest.
  function VbmetaNeed(c: Config, location: nat, text: string, nameLen: nat): Need
    requires nameLen <= |text|
    decreases Rank(location, text), 2, 0
  {
    match Find(c, location, text[..nameLen], IsVbmeta(text))
    case NotFound(_) => NOTHING
    case TryBoot => VbmetaNeed(c, 0, "boot", 4)
    case FoundImage(v) =>
      if VerificationDisabled(v.flags) then Need(1, |c.requested|, 0)
      else Need(1, 0, 0).Plus(WalkNeed(c, location, v, 0))
  }

  function WalkNeed(c: Config, location: nat, v: Vbmeta, n: nat): Need
    requires n <= |v.descriptors|
    decreases if location == 0 then 1 else 0, 1, |v.descriptors| - n
  {
    if n == |v.descriptors| then NOTHING
    else DescriptorNeed(c, location, v.descriptors[n]).Plus(WalkNeed(c, location, v, n + 1))
  }

  function DescriptorNeed(c: Config, location: nat, desc: Descriptor): Need
    decreases if location == 0 then 1 else 0, 0, 0
  {
    match desc
    case HashDesc(_, name, _, _, _, _, _) => Need(0, if name in c.requested then 1 else 0, 0)
    case ChainDesc(_, chained, text, nameLen, _) =>
      if location == 0 && chained != 0 && nameLen <= |text| then VbmetaNeed(c, chained, text, nameLen) else NOTHING
    case HashtreeDesc(_, _, _, _, _) => Need(0, 0, if location == 0 && Persistent(desc) then 1 else 0)
    case _ => NOTHING
  }

  predicate Fits(d: Data, n: Need) {
    && |d.images| + n.images <= MAX_VBMETA_IMAGES
    && |d.loaded| + n.loaded <= MAX_LOADED_PARTITIONS
    && d.substs + n.substs <= MAX_CMDLINE_SUBST
  }

  // ----- nothing takes more room than was counted

  predicate Within(d: Data, d': Data, n: Need) {
    && |d'.images| <= |d.images| + n.images
    && |d'.loaded| <= |d.loaded| + n.loaded
    && d'.substs <= d.substs + n.substs
  }

  lemma {:induction false} RequestedWithin(c: Config, n: nat, d: Data)
    requires n <= |c.requested|
    ensures Within(d, LoadRequested(c, n, d).1, Need(0, |c.requested| - n, 0))
    decreases |c.requested| - n
  {
    if c.ops.sizeOf.Some? && n < |c.requested| {
      var one := LoadOne(c, c.requested[n], d);
      if one.0 == VerifyOk {
        RequestedWithin(c, n + 1, one.1);
      }
    }
  }

  // What is done once an image is found and checked.
  lemma FoundWalk(c: Config, top: nat, location: nat, text: string, nameLen: nat, key: Option<string>, d: Data, v: Vbmeta)
    requires nameLen <= |text| && c.ops.utf8(text[..nameLen])
    requires Find(c, location, text[..nameLen], IsVbmeta(text)) == FoundImage(v) && Check(c, location, key, v).Continue?
    requires |d.images| != MAX_VBMETA_IMAGES && !VerificationDisabled(v.flags)
    ensures var d1 := d.(images := d.images + [Image(CString(text), v, v.verdict)]);
            var walked := Walk(c, if location == 0 then v.flags else top, location, v, 0, Check(c, location, key, v).ret, d1);
            LoadVbmeta(c, top, location, text, nameLen, key, d) ==
              if walked.0.Stop? then (walked.0.ret, walked.1) else Record(walked.1, location, v, walked.0.ret)
    ensures VbmetaNeed(c, location, text, nameLen) == Need(1, 0, 0).Plus(WalkNeed(c, location, v, 0))
  {
  }

  lemma {:induction false} VbmetaWithin(c: Config, top: nat, location: nat, text: string, nameLen: nat, key: Option<string>, d: Data)
    requires nameLen <= |text|
    ensures Within(d, LoadVbmeta(c, top, location, text, nameLen, key, d).1, VbmetaNeed(c, location, text, nameLen))
    decreases Rank(location, text), 2, 0
  {
    if c.ops.utf8(text[..nameLen]) {
      var found := Find(c, location, text[..nameLen], IsVbmeta(text));
      if found.TryBoot? {
        assert !IsVbmeta("boot") by { assert "boot"[0] == 'b'; }
        VbmetaWithin(c, 0, 0, "boot", 4, None, d);
      } else if found.FoundImage? {
        var v := found.vbmeta;
        var check := Check(c, location, key, v);
        var d1 := d.(images := d.images + [Image(CString(text), v, v.verdict)]);
        if check.Continue? && |d.images| != MAX_VBMETA_IMAGES {
          if VerificationDisabled(v.flags) {
            RequestedWithin(c, 0, d1);
          } else {
            FoundWalk(c, top, location, text, nameLen, key, d, v);
            WalkWithin(c, if location == 0 then v.flags else top, location, v, 0, check.ret, d1);
          }
        }
      }
    }
  }

  lemma {:induction false} WalkWithin(c: Config, top: nat, location: nat, v: Vbmeta, n: nat, ret: VerifyResult, d: Data)
    requires n <= |v.descriptors|
    ensures Within(d, Walk(c, top, location, v, n, ret, d).1, WalkNeed(c, location, v, n))
    decreases if location == 0 then 1 else 0, 1, |v.descriptors| - n
  {
    if n < |v.descriptors| {
      var one := Visit(c, top, location, v.descriptors[n], ret, d);
      VisitWithin(c, top, location, v.descriptors[n], ret, d);
      if one.0.Continue? {
        WalkWithin(c, top, location, v, n + 1, one.0.ret, one.1);
      }
    }
  }

  lemma {:induction false} VisitWithin(c: Config, top: nat, location: nat, desc: Descriptor, ret: VerifyResult, d: Data)
    ensures Within(d, Visit(c, top, location, desc, ret, d).1, DescriptorNeed(c, location, desc))
    decreases if location == 0 then 1 else 0, 1, 0
  {
    if desc.ChainDesc? && location == 0 && desc.location != 0 && desc.nameLen <= |desc.text| {
      VbmetaWithin(c, top, desc.location, desc.text, desc.nameLen, Some(desc.key), d);
    }
  }

  // ----- with enough room no list is ever full

  lemma PlainVisitRoom(c: Config, top: nat, location: nat, desc: Descriptor, ret: VerifyResult, d: Data)
    requires location != 0 && Fits(d, DescriptorNeed(c, location, desc))
    requires PlainTolerated(c, desc) || (!c.allow && DigestDiffers(c, desc))
    ensures Visit(c, top, location, desc, ret, d).0 != Stop(VerifyOom)
  {
    if desc.HashDesc? {
      HashCheckMeaning(c, desc);
      HashCheckFails(c, desc);
    }
  }

  lemma {:induction false} PlainWalkRoom(c: Config, top: nat, location: nat, v: Vbmeta, n: nat, ret: VerifyResult, d: Data)
    requires location != 0 && ShouldContinue(ret) && n <= |v.descriptors| && Fits(d, WalkNeed(c, location, v, n))
    requires AllTolerated(c, v, n) || (!c.allow && LeftAtDigest(c, v, n))
    ensures Walk(c, top, location, v, n, ret, d).0 != Stop(VerifyOom)
    decreases |v.descriptors| - n
  {
    if n < |v.descriptors| {
      var one := Visit(c, top, location, v.descriptors[n], ret, d);
      LeftStep(c, v, n);
      PlainVisit(c, top, location, v.descriptors[n], ret, d);
      PlainVisitRoom(c, top, location, v.descriptors[n], ret, d);
      VisitWithin(c, top, location, v.descriptors[n], ret, d);
      if one.0.Continue? {
        PlainWalkRoom(c, top, location, v, n + 1, one.0.ret, one.1);
      }
    }
  }

  lemma ChainedRoom(c: Config, top: nat, location: nat, text: string, nameLen: nat, key: Option<string>, d: Data)
    requires nameLen <= |text| && location != 0 && Tolerated(c, location, text, nameLen, key)
    requires Fits(d, VbmetaNeed(c, location, text, nameLen))
    ensures ShouldContinue(LoadVbmeta(c, top, location, text, nameLen, key, d).0)
  {
    ChainedTolerated(c, top, location, text, nameLen, key, d);
    var v := Find(c, location, text[..nameLen], IsVbmeta(text)).vbmeta;
    var check := Check(c, location, key, v);
    if check.Continue? {
      CheckGoesOn(c, location, key, v);
      assert |d.images| < MAX_VBMETA_IMAGES;
      FoundWalk(c, top, location, text, nameLen, key, d, v);
      var d1 := d.(images := d.images + [Image(CString(text), v, v.verdict)]);
      PlainWalk(c, top, location, v, 0, check.ret, d1);
      PlainWalkRoom(c, top, location, v, 0, check.ret, d1);
    }
  }

  lemma {:induction false} RequestedRoom(c: Config, n: nat, d: Data)
    requires n <= |c.requested| && |d.loaded| + |c.requested| - n <= MAX_LOADED_PARTITIONS
    requires c.ops.sizeOf.Some? && forall i :: n <= i < |c.requested| ==> Present(c, c.requested[i])
    ensures LoadRequested(c, n, d).0 == VerifyOk
    decreases |c.requested| - n
  {
    if n < |c.requested| {
      assert Present(c, c.requested[n]);
      RequestedRoom(c, n + 1, LoadOne(c, c.requested[n], d).1);
    }
  }

  lemma {:induction false} VbmetaRoom(c: Config, top: nat, location: nat, text: string, nameLen: nat, key: Option<string>, d: Data)
    requires nameLen <= |text| && Accepted(c, location, text, nameLen, key)
    requires Fits(d, VbmetaNeed(c, location, text, nameLen))
    ensures LoadVbmeta(c, top, location, text, nameLen, key, d).0 == VerifyOk
    decreases Rank(location, text), 2, 0
  {
    var found := Find(c, location, text[..nameLen], IsVbmeta(text));
    if found.TryBoot? {
      assert !IsVbmeta("boot") by { assert "boot"[0] == 'b'; }
      VbmetaRoom(c, 0, 0, "boot", 4, None, d);
    } else {
      var v := found.vbmeta;
      var check := Check(c, location, key, v);
      var d1 := d.(images := d.images + [Image(CString(text), v, v.verdict)]);
      CheckMeaning(c, location, key, v);
      if VerificationDisabled(v.flags) {
        RequestedRoom(c, 0, d1);
      } else {
        WalkRoom(c, if location == 0 then v.flags else top, location, v, 0, check.ret, d1);
      }
    }
  }

  lemma {:induction false} WalkRoom(c: Config, top: nat, location: nat, v: Vbmeta, n: nat, ret: VerifyResult, d: Data)
    requires n <= |v.descriptors| && Fits(d, WalkNeed(c, location, v, n))
    requires Settled(c, location, v, n) && (NoPersistentFrom(v, n) ==> ret == VerifyOk)
    ensures Walk(c, top, location, v, n, ret, d).0 == Continue(VerifyOk)
    decreases if location == 0 then 1 else 0, 1, |v.descriptors| - n
  {
    if n < |v.descriptors| {
      var one := Visit(c, top, location, v.descriptors[n], ret, d);
      SettledStep(c, location, v, n);
      VisitRoom(c, top, location, v.descriptors[n], ret, d);
      VisitWithin(c, top, location, v.descriptors[n], ret, d);
      WalkRoom(c, top, location, v, n + 1, one.0.ret, one.1);
    }
  }

  lemma {:induction false} VisitRoom(c: Config, top: nat, location: nat, desc: Descriptor, ret: VerifyResult, d: Data)
    requires Fits(d, DescriptorNeed(c, location, desc))
    ensures var s := Visit(c, top, location, desc, ret, d).0;
            && (DescriptorTolerated(c, location, desc) ==> s.Continue?)
            && (DescriptorAccepted(c, location, desc) && (ret == VerifyOk || Persistent(desc)) ==> s == Continue(VerifyOk))
    decreases if location == 0 then 1 else 0, 1, 0
  {
    if desc.HashDesc? {
      HashCheckMeaning(c, desc);
      HashCheckFails(c, desc);
    } else if desc.ChainDesc? && location == 0 && desc.location != 0 && desc.nameLen <= |desc.text| {
      if Tolerated(c, desc.location, desc.text, desc.nameLen, Some(desc.key)) {
        ChainedRoom(c, top, desc.location, desc.text, desc.nameLen, Some(desc.key), d);
      }
      if Accepted(c, desc.location, desc.text, desc.nameLen, Some(desc.key)) {
        VbmetaRoom(c, top, desc.location, desc.text, desc.nameLen, Some(desc.key), d);
      }
    }
  }

  // ----- the whole call

  // At most 32 images, 32 partitions and ten substitutions, and a device that answers.
  ghost predicate Roomy(c: Config) {
    && Fits(EmptyData(), VbmetaNeed(c, 0, "vbmeta", 6))
    && c.ops.unlocked.Got? && forall line: string :: c.ops.substitute(line).Some?
  }

  lemma RoomySlotOkIff(c: Config, logging: bool)
    requires Roomy(c) && (logging ==> c.allow)
    ensures SlotVerify(c, logging).0 == VerifyOk <==> SlotAccepted(c)
  {
    SlotOkIffAccepted(c, logging);
    if SlotAccepted(c) {
      VbmetaRoom(c, 0, 0, "vbmeta", 6, None, EmptyData());
      FinishedWithRoom(c, logging, VerifyOk, SlotData(c));
    }
  }

  lemma FinishedWithRoom(c: Config, logging: bool, ret: VerifyResult, d: Data)
    requires c.ops.unlocked.Got? && (forall line: string :: c.ops.substitute(line).Some?) && (logging ==> c.allow)
    requires LoadVbmeta(c, 0, 0, "vbmeta", 6, None, EmptyData()) == (ret, d) && ret == VerifyOk
    ensures SlotVerify(c, logging).0 == VerifyOk
  {
    TopImageRecorded(c, 0, "vbmeta", 6, EmptyData());
    FinishOk(c, d);
  }

  lemma FinishOk(c: Config, d: Data)
    requires c.ops.unlocked.Got? && (forall line: string :: c.ops.substitute(line).Some?) && d.images != []
    ensures Finish(c, VerifyOk, d).0 == VerifyOk
  {
  }

  // The promise of the header: it holds both ways, in either mode, exactly for a slot of which
  // nothing is hidden.
  lemma HeaderPromiseIff(c: Config, logging: bool)
    requires Roomy(c) && (logging ==> c.allow)
    ensures SlotGenuine(c) ==> SlotVerify(c, logging).0 == VerifyOk
    ensures (SlotVerify(c, logging).0 == VerifyOk <==> SlotGenuine(c)) <==> !(SlotAccepted(c) && SlotHides(c))
  {
    RoomySlotOkIff(c, logging);
    if SlotGenuine(c) {
      GenuineAccepted(c, 0, "vbmeta", 6, None);
    }
    if SlotAccepted(c) {
      GenuineUnlessHidden(c, 0, "vbmeta", 6, None);
    }
  }
}
