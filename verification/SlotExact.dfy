/** Exactly when avb_slot_verify reports OK, and when an OK hides an error. */
module SlotExact {
  import opened Bytes
  import opened AvbTypes
  import opened SlotSpec
  import opened SlotProofs

  // ----- errors that verification goes on from

  // A requested partition can be loaded, but does not have the digest that is expected.
  predicate DigestDiffers(c: Config, h: Descriptor) {
    && h.HashDesc? && h.valid && c.ops.utf8(h.name)
    && h.name in c.requested && HashPartName(c, h).Some?
    && var part := HashPartName(c, h).value;
    && HashLoadSize(c, h, part).Got?
    && var image := LoadFull(c, part, HashLoadSize(c, h, part).value);
    && image.0 == VerifyOk
    && (h.algorithm == Sha256 || h.algorithm == Sha512)
    && ExpectedDigest(c, h, part).0 == VerifyOk
    && (h.digest != "" ==> |h.digest| == DigestLength(h.algorithm))
    && c.ops.digest(h.algorithm, Hashed(h, image.1)) != ExpectedDigest(c, h, part).1
  }

  lemma HashCheckFails(c: Config, h: Descriptor)
    requires h.HashDesc?
    ensures HashCheck(c, h).0 == VerifyVerification <==> DigestDiffers(c, h)
    ensures ShouldContinue(HashCheck(c, h).0) ==> HashCheck(c, h).0 in {VerifyOk, VerifyVerification}
  {
  }

  // The loop over the descriptors is not left at this one, which names no other image.
  predicate PlainTolerated(c: Config, desc: Descriptor) {
    match desc
    case Malformed | ChainDesc(_, _, _, _, _) => false
    case HashDesc(_, _, _, _, _, _, _) => HashGenuine(c, desc) || (c.allow && DigestDiffers(c, desc))
    case CmdlineDesc(valid, line, _, _) => valid && c.ops.utf8(line)
    case HashtreeDesc(valid, _, _, _, rootDigestLen) => valid && (rootDigestLen == 0 ==> RootDigestKnown(c, desc))
    case PropertyDesc => true
  }

  predicate AllTolerated(c: Config, v: Vbmeta, n: nat) {
    forall i :: n <= i < |v.descriptors| ==> PlainTolerated(c, v.descriptors[i])
  }

  // The loop is left at a wrong digest.
  predicate LeftAtDigest(c: Config, v: Vbmeta, n: nat) {
    exists i :: n <= i < |v.descriptors| && DigestDiffers(c, v.descriptors[i])
                && forall j :: n <= j < i ==> PlainTolerated(c, v.descriptors[j])
  }

  // A chained image with whose result, good or bad, the loop of the main image goes on. Without
  // the allow flag a wrong digest ends the chained image and yet not the main one.
  predicate Tolerated(c: Config, location: nat, text: string, nameLen: nat, key: Option<string>)
    requires nameLen <= |text|
  {
    && c.ops.utf8(text[..nameLen])
    && Find(c, location, text[..nameLen], IsVbmeta(text)).FoundImage?
    && var v := Find(c, location, text[..nameLen], IsVbmeta(text)).vbmeta;
       match Check(c, location, key, v)
       case Stop(ret) => ShouldContinue(ret)
       case Continue(_) => (location < MAX_ROLLBACK_LOCATIONS && AllTolerated(c, v, 0)) || (!c.allow && LeftAtDigest(c, v, 0))
  }

  predicate DescriptorTolerated(c: Config, location: nat, desc: Descriptor) {
    if desc.ChainDesc? then
      && location == 0 && desc.valid && desc.location != 0 && desc.nameLen <= |desc.text|
      && Tolerated(c, desc.location, desc.text, desc.nameLen, Some(desc.key))
    else PlainTolerated(c, desc)
  }

  lemma PlainVisit(c: Config, top: nat, location: nat, desc: Descriptor, ret: VerifyResult, d: Data)
    requires location != 0 && ShouldContinue(ret)
    ensures var (s, d') := Visit(c, top, location, desc, ret, d);
            && (s.Continue? ==> PlainTolerated(c, desc) && ShouldContinue(s.ret))
            && (PlainTolerated(c, desc) ==> s.Continue? || s == Stop(VerifyOom))
            && (s.Stop? && ShouldContinue(s.ret) ==> !c.allow && DigestDiffers(c, desc))
            && (!c.allow && DigestDiffers(c, desc) ==> s in {Stop(VerifyVerification), Stop(VerifyOom)})
            && d'.substs == d.substs
  {
    if desc.HashDesc? {
      HashCheckMeaning(c, desc);
      HashCheckFails(c, desc);
    }
  }

  lemma {:induction false} PlainWalk(c: Config, top: nat, location: nat, v: Vbmeta, n: nat, ret: VerifyResult, d: Data)
    requires location != 0 && ShouldContinue(ret) && n <= |v.descriptors|
    ensures var (s, d') := Walk(c, top, location, v, n, ret, d);
            && (s.Continue? ==> AllTolerated(c, v, n) && ShouldContinue(s.ret))
            && (AllTolerated(c, v, n) ==> s.Continue? || s == Stop(VerifyOom))
            && (s.Stop? && ShouldContinue(s.ret) ==> !c.allow && LeftAtDigest(c, v, n))
            && (!c.allow && LeftAtDigest(c, v, n) ==> s in {Stop(VerifyVerification), Stop(VerifyOom)})
            && d'.substs == d.substs
    decreases |v.descriptors| - n
  {
    if n < |v.descriptors| {
      var one := Visit(c, top, location, v.descriptors[n], ret, d);
      PlainVisit(c, top, location, v.descriptors[n], ret, d);
      if one.0.Continue? {
        PlainWalk(c, top, location, v, n + 1, one.0.ret, one.1);
      }
      LeftStep(c, v, n);
    }
  }

  lemma LeftStep(c: Config, v: Vbmeta, n: nat)
    requires n < |v.descriptors|
    ensures LeftAtDigest(c, v, n) <==>
              DigestDiffers(c, v.descriptors[n]) || (PlainTolerated(c, v.descriptors[n]) && LeftAtDigest(c, v, n + 1))
  {
    if LeftAtDigest(c, v, n + 1) && PlainTolerated(c, v.descriptors[n]) {
      var i :| n + 1 <= i < |v.descriptors| && DigestDiffers(c, v.descriptors[i])
               && forall j :: n + 1 <= j < i ==> PlainTolerated(c, v.descriptors[j]);
      assert forall j :: n <= j < i ==> PlainTolerated(c, v.descriptors[j]);
    }
  }

  lemma ChainedTolerated(c: Config, top: nat, location: nat, text: string, nameLen: nat, key: Option<string>, d: Data)
    requires nameLen <= |text| && location != 0
    ensures var (ret, d') := LoadVbmeta(c, top, location, text, nameLen, key, d);
            && (ShouldContinue(ret) ==> Tolerated(c, location, text, nameLen, key))
            && (Tolerated(c, location, text, nameLen, key) ==> ShouldContinue(ret) || ret == VerifyOom)
            && d'.substs == d.substs
  {
    var found := Find(c, location, text[..nameLen], IsVbmeta(text));
    if c.ops.utf8(text[..nameLen]) && found.FoundImage? {
      var v := found.vbmeta;
      var check := Check(c, location, key, v);
      if check.Continue? && |d.images| != MAX_VBMETA_IMAGES {
        CheckGoesOn(c, location, key, v);
        PlainWalk(c, top, location, v, 0, check.ret, d.(images := d.images + [Image(CString(text), v, v.verdict)]));
      }
    }
  }

  lemma CheckGoesOn(c: Config, location: nat, key: Option<string>, v: Vbmeta)
    requires Check(c, location, key, v).Continue?
    ensures ShouldContinue(Check(c, location, key, v).ret)
    ensures location != 0 ==> !VerificationDisabled(v.flags)
  {
  }

  // ----- when OK is reported

  // Every descriptor lets the loop go on, and those without a later descriptor that resets the
  // result are in order.
  predicate Settled(c: Config, location: nat, v: Vbmeta, n: nat)
    decreases if location == 0 then 1 else 0, 1
  {
    forall i :: n <= i < |v.descriptors| ==>
      if NoPersistentFrom(v, i + 1) then DescriptorAccepted(c, location, v.descriptors[i])
      else DescriptorTolerated(c, location, v.descriptors[i])
  }

  predicate Accepted(c: Config, location: nat, text: string, nameLen: nat, key: Option<string>)
    requires nameLen <= |text|
    decreases Rank(location, text), 2
  {
    && c.ops.utf8(text[..nameLen])
    && match Find(c, location, text[..nameLen], IsVbmeta(text))
       case NotFound(_) => false
       case TryBoot => Accepted(c, 0, "boot", 4, None)
       case FoundImage(v) =>
         && Check(c, location, key, v).Continue?
         && if VerificationDisabled(v.flags) then
              && Trusted(c, location, key, v)
              && c.ops.sizeOf.Some? && forall i :: 0 <= i < |c.requested| ==> Present(c, c.requested[i])
            else
              && location < MAX_ROLLBACK_LOCATIONS
              && (NoPersistentFrom(v, 0) ==> Trusted(c, location, key, v))
              && Settled(c, location, v, 0)
  }

  predicate DescriptorAccepted(c: Config, location: nat, desc: Descriptor)
    decreases if location == 0 then 1 else 0, 0
  {
    if desc.ChainDesc? then
      && location == 0 && desc.valid && desc.location != 0 && desc.nameLen <= |desc.text|
      && Accepted(c, desc.location, desc.text, desc.nameLen, Some(desc.key))
    else DescriptorGenuine(c, location, desc)
  }

  // One of the fixed-size lists is full.
  predicate RanOut(ret: VerifyResult, d: Data) {
    ret == VerifyOom || (ret == VerifyInvalidMetadata && d.substs >= MAX_CMDLINE_SUBST)
  }

  lemma {:induction false} OkIffAccepted(c: Config, top: nat, location: nat, text: string, nameLen: nat, key: Option<string>, d: Data)
    requires nameLen <= |text|
    ensures var (ret, d') := LoadVbmeta(c, top, location, text, nameLen, key, d);
            && (ret == VerifyOk ==> Accepted(c, location, text, nameLen, key))
            && (Accepted(c, location, text, nameLen, key) ==> ret == VerifyOk || RanOut(ret, d'))
    decreases Rank(location, text), 2, 0
  {
    if c.ops.utf8(text[..nameLen]) {
      var found := Find(c, location, text[..nameLen], IsVbmeta(text));
      if found.TryBoot? {
        assert !IsVbmeta("boot") by { assert "boot"[0] == 'b'; }
        OkIffAccepted(c, 0, 0, "boot", 4, None, d);
      } else if found.FoundImage? {
        var v := found.vbmeta;
        var check := Check(c, location, key, v);
        var d1 := d.(images := d.images + [Image(CString(text), v, v.verdict)]);
        CheckMeaning(c, location, key, v);
        if check.Continue? && |d.images| != MAX_VBMETA_IMAGES {
          if VerificationDisabled(v.flags) {
            LoadRequestedMeaning(c, 0, d1);
          } else {
            WalkStopsWithError(c, if location == 0 then v.flags else top, location, v, 0, check.ret, d1);
            WalkIffSettled(c, if location == 0 then v.flags else top, location, v, 0, check.ret, d1);
          }
        }
      }
    }
  }

  lemma {:induction false} WalkIffSettled(c: Config, top: nat, location: nat, v: Vbmeta, n: nat, ret: VerifyResult, d: Data)
    requires n <= |v.descriptors|
    ensures var (s, d') := Walk(c, top, location, v, n, ret, d);
            var good := Settled(c, location, v, n) && (NoPersistentFrom(v, n) ==> ret == VerifyOk);
            && (s == Continue(VerifyOk) ==> good)
            && (good ==> s == Continue(VerifyOk) || (s.Stop? && RanOut(s.ret, d')))
    decreases if location == 0 then 1 else 0, 1, |v.descriptors| - n
  {
    if n < |v.descriptors| {
      var one := Visit(c, top, location, v.descriptors[n], ret, d);
      VisitIffAccepted(c, top, location, v.descriptors[n], ret, d);
      if one.0.Continue? {
        WalkIffSettled(c, top, location, v, n + 1, one.0.ret, one.1);
      }
      SettledStep(c, location, v, n);
    }
  }

  lemma SettledStep(c: Config, location: nat, v: Vbmeta, n: nat)
    requires n < |v.descriptors|
    ensures Settled(c, location, v, n) <==>
              && Settled(c, location, v, n + 1)
              && if NoPersistentFrom(v, n + 1) then DescriptorAccepted(c, location, v.descriptors[n])
                 else DescriptorTolerated(c, location, v.descriptors[n])
    ensures NoPersistentFrom(v, n) <==> NoPersistentFrom(v, n + 1) && !Persistent(v.descriptors[n])
  {
  }

  lemma {:induction false} VisitIffAccepted(c: Config, top: nat, location: nat, desc: Descriptor, ret: VerifyResult, d: Data)
    ensures var (s, d') := Visit(c, top, location, desc, ret, d);
            && (s.Continue? ==> DescriptorTolerated(c, location, desc))
            && (DescriptorTolerated(c, location, desc) ==> s.Continue? || RanOut(s.ret, d'))
            && (s == Continue(VerifyOk) ==> DescriptorAccepted(c, location, desc) && (ret == VerifyOk || Persistent(desc)))
            && (DescriptorAccepted(c, location, desc) && (ret == VerifyOk || Persistent(desc)) ==>
                  s == Continue(VerifyOk) || (s.Stop? && RanOut(s.ret, d')))
    decreases if location == 0 then 1 else 0, 1, 0
  {
    if desc.HashDesc? {
      HashCheckMeaning(c, desc);
      HashCheckFails(c, desc);
    } else if desc.ChainDesc? && location == 0 && desc.location != 0 && desc.nameLen <= |desc.text| {
      ChainedTolerated(c, top, desc.location, desc.text, desc.nameLen, Some(desc.key), d);
      OkIffAccepted(c, top, desc.location, desc.text, desc.nameLen, Some(desc.key), d);
    }
  }

  // ----- what OK means for the slot

  // Something is wrong in the image or below it, but a later hashtree descriptor without root
  // digest makes the result forget it.
  predicate Hides(c: Config, location: nat, text: string, nameLen: nat, key: Option<string>)
    requires nameLen <= |text|
    decreases Rank(location, text), 1
  {
    match Find(c, location, text[..nameLen], IsVbmeta(text))
    case NotFound(_) => false
    case TryBoot => Hides(c, 0, "boot", 4, None)
    case FoundImage(v) =>
      && !VerificationDisabled(v.flags)
      && ((!NoPersistentFrom(v, 0) && !Trusted(c, location, key, v))
          || exists i :: 0 <= i < |v.descriptors| && DescriptorHides(c, location, v, i))
  }

  predicate DescriptorHides(c: Config, location: nat, v: Vbmeta, i: nat)
    requires i < |v.descriptors|
    decreases if location == 0 then 1 else 0, 0
  {
    var desc := v.descriptors[i];
    if !NoPersistentFrom(v, i + 1) then !DescriptorGenuine(c, location, desc)
    else
      location == 0 && desc.ChainDesc? && desc.location != 0 && desc.nameLen <= |desc.text|
      && Hides(c, desc.location, desc.text, desc.nameLen, Some(desc.key))
  }

  lemma {:induction false} GenuineUnlessHidden(c: Config, location: nat, text: string, nameLen: nat, key: Option<string>)
    requires nameLen <= |text| && Accepted(c, location, text, nameLen, key)
    ensures Genuine(c, location, text, nameLen, key) <==> !Hides(c, location, text, nameLen, key)
    decreases Rank(location, text), 2
  {
    match Find(c, location, text[..nameLen], IsVbmeta(text))
    case TryBoot =>
      assert !IsVbmeta("boot") by { assert "boot"[0] == 'b'; }
      GenuineUnlessHidden(c, 0, "boot", 4, None);
    case FoundImage(v) =>
      if !VerificationDisabled(v.flags) {
        forall i | 0 <= i < |v.descriptors|
          ensures DescriptorGenuine(c, location, v.descriptors[i]) <==> !DescriptorHides(c, location, v, i)
        {
          DescriptorUnlessHidden(c, location, v, i);
        }
      }
  }

  lemma {:induction false} DescriptorUnlessHidden(c: Config, location: nat, v: Vbmeta, i: nat)
    requires i < |v.descriptors| && Settled(c, location, v, 0)
    ensures DescriptorGenuine(c, location, v.descriptors[i]) <==> !DescriptorHides(c, location, v, i)
    decreases if location == 0 then 1 else 0, 1
  {
    var desc := v.descriptors[i];
    if NoPersistentFrom(v, i + 1) && desc.ChainDesc? {
      GenuineUnlessHidden(c, desc.location, desc.text, desc.nameLen, Some(desc.key));
    }
  }

  // What is in order is reported OK, hashtree descriptors without root digest or not.
  lemma {:induction false} GenuineAccepted(c: Config, location: nat, text: string, nameLen: nat, key: Option<string>)
    requires nameLen <= |text| && Genuine(c, location, text, nameLen, key)
    ensures Accepted(c, location, text, nameLen, key)
    ensures location != 0 ==> Tolerated(c, location, text, nameLen, key)
    decreases Rank(location, text), 2
  {
    match Find(c, location, text[..nameLen], IsVbmeta(text))
    case TryBoot =>
      assert !IsVbmeta("boot") by { assert "boot"[0] == 'b'; }
      GenuineAccepted(c, 0, "boot", 4, None);
    case FoundImage(v) =>
      CheckMeaning(c, location, key, v);
      if !VerificationDisabled(v.flags) {
        forall i | 0 <= i < |v.descriptors|
          ensures DescriptorAccepted(c, location, v.descriptors[i]) && DescriptorTolerated(c, location, v.descriptors[i])
        {
          assert DescriptorGenuine(c, location, v.descriptors[i]);
          DescriptorGenuineAccepted(c, location, v.descriptors[i]);
        }
      }
  }

  lemma {:induction false} DescriptorGenuineAccepted(c: Config, location: nat, desc: Descriptor)
    requires DescriptorGenuine(c, location, desc)
    ensures DescriptorAccepted(c, location, desc) && DescriptorTolerated(c, location, desc)
    decreases if location == 0 then 1 else 0, 0
  {
    if desc.ChainDesc? {
      GenuineAccepted(c, desc.location, desc.text, desc.nameLen, Some(desc.key));
    }
  }

  // ----- the two halves of the promise that OK is returned if and only if there are no errors

  lemma OkIsGenuine(c: Config, top: nat, location: nat, text: string, nameLen: nat, key: Option<string>, d: Data)
    requires nameLen <= |text| && NothingHidden(c)
    requires LoadVbmeta(c, top, location, text, nameLen, key, d).0 == VerifyOk
    ensures Genuine(c, location, text, nameLen, key)
  {
    OkIffAccepted(c, top, location, text, nameLen, key, d);
    NothingHides(c, location, text, nameLen, key);
    GenuineUnlessHidden(c, location, text, nameLen, key);
  }

  lemma {:induction false} NothingHides(c: Config, location: nat, text: string, nameLen: nat, key: Option<string>)
    requires nameLen <= |text| && NothingHidden(c) && Accepted(c, location, text, nameLen, key)
    ensures !Hides(c, location, text, nameLen, key)
    decreases Rank(location, text), 2
  {
    match Find(c, location, text[..nameLen], IsVbmeta(text))
    case TryBoot =>
      assert !IsVbmeta("boot") by { assert "boot"[0] == 'b'; }
      NothingHides(c, 0, "boot", 4, None);
    case FoundImage(v) =>
      FoundCannotHide(c, location, text[..nameLen], IsVbmeta(text));
      CheckMeaning(c, location, key, v);
      if !VerificationDisabled(v.flags) {
        forall i | 0 <= i < |v.descriptors| ensures !DescriptorHides(c, location, v, i) {
          DescriptorHidesNothing(c, location, v, i);
        }
      }
  }

  lemma {:induction false} DescriptorHidesNothing(c: Config, location: nat, v: Vbmeta, i: nat)
    requires NothingHidden(c) && CannotHide(c, v) && i < |v.descriptors| && Settled(c, location, v, 0)
    ensures !DescriptorHides(c, location, v, i)
    decreases if location == 0 then 1 else 0, 1
  {
    var desc := v.descriptors[i];
    if NoPersistentFrom(v, i + 1) {
      if location == 0 && desc.ChainDesc? && desc.location != 0 && desc.nameLen <= |desc.text| {
        NothingHides(c, desc.location, desc.text, desc.nameLen, Some(desc.key));
      }
    }
  }

  // A device without the operation that reads persistent values passes no descriptor without root
  // digest, so nothing resets the result.
  lemma {:induction false} NoStoreHidesNothing(c: Config, location: nat, text: string, nameLen: nat, key: Option<string>)
    requires nameLen <= |text| && c.ops.persistent.None? && Accepted(c, location, text, nameLen, key)
    ensures !Hides(c, location, text, nameLen, key)
    decreases Rank(location, text), 2
  {
    match Find(c, location, text[..nameLen], IsVbmeta(text))
    case TryBoot =>
      assert !IsVbmeta("boot") by { assert "boot"[0] == 'b'; }
      NoStoreHidesNothing(c, 0, "boot", 4, None);
    case FoundImage(v) =>
      if !VerificationDisabled(v.flags) {
        forall i | 0 <= i < |v.descriptors| ensures !Persistent(v.descriptors[i]) {
          PassedNotPersistent(c, location, v, i);
        }
        forall i | 0 <= i < |v.descriptors| ensures !DescriptorHides(c, location, v, i) {
          DescriptorHidesNothingWithoutStore(c, location, v, i);
        }
      }
  }

  lemma PassedNotPersistent(c: Config, location: nat, v: Vbmeta, i: nat)
    requires c.ops.persistent.None? && i < |v.descriptors| && Settled(c, location, v, 0)
    ensures !Persistent(v.descriptors[i])
  {
  }

  lemma {:induction false} DescriptorHidesNothingWithoutStore(c: Config, location: nat, v: Vbmeta, i: nat)
    requires c.ops.persistent.None? && i < |v.descriptors| && Settled(c, location, v, 0) && NoPersistentFrom(v, i + 1)
    ensures !DescriptorHides(c, location, v, i)
    decreases if location == 0 then 1 else 0, 1
  {
    var desc := v.descriptors[i];
    if location == 0 && desc.ChainDesc? && desc.location != 0 && desc.nameLen <= |desc.text| {
      NoStoreHidesNothing(c, desc.location, desc.text, desc.nameLen, Some(desc.key));
    }
  }

  lemma GenuineIsOk(c: Config, top: nat, location: nat, text: string, nameLen: nat, key: Option<string>, d: Data)
    requires nameLen <= |text| && Genuine(c, location, text, nameLen, key)
    ensures var (ret, d') := LoadVbmeta(c, top, location, text, nameLen, key, d); ret == VerifyOk || RanOut(ret, d')
  {
    GenuineAccepted(c, location, text, nameLen, key);
    OkIffAccepted(c, top, location, text, nameLen, key, d);
  }

  // ----- the whole call

  predicate SlotAccepted(c: Config) { Accepted(c, 0, "vbmeta", 6, None) }

  predicate SlotHides(c: Config) { Hides(c, 0, "vbmeta", 6, None) }

  // What the walk over the images of the slot leaves behind.
  function SlotData(c: Config): Data { LoadVbmeta(c, 0, 0, "vbmeta", 6, None, EmptyData()).1 }

  // OK is reported exactly for an accepted slot, as long as no list is full, the command line can
  // be built and the device state can be read.
  lemma SlotOkIffAccepted(c: Config, logging: bool)
    requires logging ==> c.allow
    ensures SlotVerify(c, logging).0 == VerifyOk ==> SlotAccepted(c) && SlotVerify(c, logging).1.Some?
    ensures SlotAccepted(c) ==>
              || SlotVerify(c, logging).0 == VerifyOk
              || RanOut(SlotVerify(c, logging).0, SlotData(c))
              || (SlotVerify(c, logging).0 == VerifyIo && !c.ops.unlocked.Got?)
  {
    OkIffAccepted(c, 0, 0, "vbmeta", 6, None, EmptyData());
    var (ret, d) := LoadVbmeta(c, 0, 0, "vbmeta", 6, None, EmptyData());
    TopImageRecorded(c, 0, "vbmeta", 6, EmptyData());
    if ShouldContinue(ret) && (c.allow || ret == VerifyOk) {
      FinishCases(c, ret, d);
    }
  }

  // An OK hides an error exactly if something is wrong that a later descriptor makes the result
  // forget.
  lemma OkHidesErrorIff(c: Config, logging: bool)
    requires SlotVerify(c, logging).0 == VerifyOk
    ensures !SlotGenuine(c) <==> SlotHides(c)
  {
    SlotOkIffAccepted(c, logging);
    GenuineUnlessHidden(c, 0, "vbmeta", 6, None);
  }

  // In either mode OK is returned only for a slot in which nothing is wrong, as long as no
  // descriptor can hide an error; in strict mode that is a matter of the order of descriptors.
  lemma SlotOkIsGenuine(c: Config, logging: bool)
    requires NothingHidden(c) && SlotVerify(c, logging).0 == VerifyOk
    ensures SlotGenuine(c) && SlotVerify(c, logging).1.Some?
  {
    SlotOkIffAccepted(c, logging);
    NothingHides(c, 0, "vbmeta", 6, None);
    GenuineUnlessHidden(c, 0, "vbmeta", 6, None);
  }

  // So on a device that cannot read persistent values, whatever the images are.
  lemma OkIsGenuineWithoutStore(c: Config, logging: bool)
    requires c.ops.persistent.None? && SlotVerify(c, logging).0 == VerifyOk
    ensures SlotGenuine(c)
  {
    SlotOkIffAccepted(c, logging);
    NoStoreHidesNothing(c, 0, "vbmeta", 6, None);
    GenuineUnlessHidden(c, 0, "vbmeta", 6, None);
  }

  // And a slot in which nothing is wrong is reported OK, with the same exceptions.
  lemma GenuineSlotIsOk(c: Config, logging: bool)
    requires SlotGenuine(c) && (logging ==> c.allow)
    ensures SlotVerify(c, logging).0 == VerifyOk
            || RanOut(SlotVerify(c, logging).0, SlotData(c))
            || (SlotVerify(c, logging).0 == VerifyIo && !c.ops.unlocked.Got?)
  {
    GenuineAccepted(c, 0, "vbmeta", 6, None);
    SlotOkIffAccepted(c, logging);
  }
}
