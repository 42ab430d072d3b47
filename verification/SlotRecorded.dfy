/** What the data that avb_slot_verify returns hold. */
module SlotRecorded {
  import opened Bytes
  import opened AvbTypes
  import opened SlotSpec
  import opened SlotProofs
  import opened SlotExact

  // ----- rollback indexes

  // Without the allow flag an index is recorded only after its image passed the rollback check.
  predicate RecordedInOrder(c: Config, d: Data) {
    && (forall e :: e in d.entries ==> e.location < MAX_ROLLBACK_LOCATIONS)
    && (forall image :: image in d.images ==> image.verifyResult == image.vbmeta.verdict)
    && (!c.allow ==> forall e :: e in d.entries ==> AtLeastStored(c, e.location, e.index))
  }

  lemma {:induction false} VbmetaKeepsOrder(c: Config, top: nat, location: nat, text: string, nameLen: nat, key: Option<string>, d: Data)
    requires nameLen <= |text| && RecordedInOrder(c, d)
    ensures RecordedInOrder(c, LoadVbmeta(c, top, location, text, nameLen, key, d).1)
    decreases Rank(location, text), 1, 0
  {
    if c.ops.utf8(text[..nameLen]) {
      var found := Find(c, location, text[..nameLen], IsVbmeta(text));
      if found.TryBoot? {
        assert !IsVbmeta("boot") by { assert "boot"[0] == 'b'; }
        VbmetaKeepsOrder(c, 0, 0, "boot", 4, None, d);
      } else if found.FoundImage? {
        var v := found.vbmeta;
        var check := Check(c, location, key, v);
        if check.Continue? && |d.images| != MAX_VBMETA_IMAGES {
          CheckMeaning(c, location, key, v);
          var d1 := d.(images := d.images + [Image(CString(text), v, v.verdict)]);
          assert RecordedInOrder(c, d1);
          LoadRequestedExtends(c, 0, d1);
          WalkKeepsOrder(c, if location == 0 then v.flags else top, location, v, 0, check.ret, d1);
        }
      }
    }
  }

  lemma {:induction false} WalkKeepsOrder(c: Config, top: nat, location: nat, v: Vbmeta, n: nat, ret: VerifyResult, d: Data)
    requires n <= |v.descriptors| && RecordedInOrder(c, d)
    ensures RecordedInOrder(c, Walk(c, top, location, v, n, ret, d).1)
    decreases if location == 0 then 1 else 0, 0, |v.descriptors| - n
  {
    if n < |v.descriptors| {
      var one := Visit(c, top, location, v.descriptors[n], ret, d);
      VisitKeepsOrder(c, top, location, v.descriptors[n], ret, d);
      if one.0.Continue? {
        WalkKeepsOrder(c, top, location, v, n + 1, one.0.ret, one.1);
      }
    }
  }

  lemma {:induction false} VisitKeepsOrder(c: Config, top: nat, location: nat, desc: Descriptor, ret: VerifyResult, d: Data)
    requires RecordedInOrder(c, d)
    ensures RecordedInOrder(c, Visit(c, top, location, desc, ret, d).1)
    decreases if location == 0 then 1 else 0, 0, 0
  {
    if desc.ChainDesc? && location == 0 && desc.location != 0 && desc.nameLen <= |desc.text| {
      VbmetaKeepsOrder(c, top, desc.location, desc.text, desc.nameLen, Some(desc.key), d);
    }
  }

  // The contract that the A/B flow relies on.
  lemma SlotVerifyHonoursContract(c: Config, logging: bool, stored: seq<u64>)
    requires |stored| == MAX_ROLLBACK_LOCATIONS
    requires forall n :: 0 <= n < MAX_ROLLBACK_LOCATIONS && c.ops.rollback(n).Got? ==> c.ops.rollback(n).value == stored[n]
    ensures HonoursContract(OutcomeOf(SlotVerify(c, logging)), c.allow, stored)
  {
    var (ret, d) := LoadVbmeta(c, 0, 0, "vbmeta", 6, None, EmptyData());
    VbmetaKeepsOrder(c, 0, 0, "vbmeta", 6, None, EmptyData());
    OrderedPasses(c, d, stored);
    if !(logging && !c.allow) && ShouldContinue(ret) && (c.allow || ret == VerifyOk) {
      TopImageRecorded(c, 0, "vbmeta", 6, EmptyData());
      FinishCases(c, ret, d);
    }
  }

  lemma OrderedPasses(c: Config, d: Data, stored: seq<u64>)
    requires |stored| == MAX_ROLLBACK_LOCATIONS && RecordedInOrder(c, d)
    requires forall n :: 0 <= n < MAX_ROLLBACK_LOCATIONS && c.ops.rollback(n).Got? ==> c.ops.rollback(n).value == stored[n]
    ensures forall e :: e in d.entries ==> e.location < MAX_ROLLBACK_LOCATIONS
    ensures !c.allow ==> PassesRollback(d.entries, stored)
  {
  }

  function OutcomeOf(r: (VerifyResult, Option<Data>)): SlotOutcome {
    SlotOutcome(r.0, r.1.Some?, if r.1.Some? then r.1.value.entries else [])
  }

  // ----- images

  // The image was verified for the location and with the key of a chain descriptor of main.
  predicate Chained(c: Config, main: Vbmeta, image: Image) {
    exists i :: 0 <= i < |main.descriptors| && ChainedBy(c, main.descriptors[i], image)
  }

  predicate ChainedBy(c: Config, desc: Descriptor, image: Image) {
    && desc.ChainDesc? && desc.location != 0 && image.name == CString(desc.text)
    && Trusted(c, desc.location, Some(desc.key), image.vbmeta)
  }

  // The first image is the top-level one, signed by a key that the device trusts, and its chain
  // descriptors vouch for all others.
  predicate ImagesTrusted(c: Config, images: seq<Image>) {
    && (forall k :: 0 <= k < |images| ==> images[k].verifyResult == ImageOk)
    && (images != [] ==> Trusted(c, 0, None, images[0].vbmeta))
    && forall k :: 1 <= k < |images| ==> Chained(c, images[0].vbmeta, images[k])
  }

  lemma {:induction false} ChainedWalkKeepsImages(c: Config, top: nat, location: nat, v: Vbmeta, n: nat, ret: VerifyResult, d: Data)
    requires location != 0 && n <= |v.descriptors|
    ensures Walk(c, top, location, v, n, ret, d).1.images == d.images
    decreases |v.descriptors| - n
  {
    if n < |v.descriptors| {
      var one := Visit(c, top, location, v.descriptors[n], ret, d);
      assert one.1.images == d.images;
      if one.0.Continue? {
        ChainedWalkKeepsImages(c, top, location, v, n + 1, one.0.ret, one.1);
      }
    }
  }

  // A chain descriptor adds at most one image, and that one is trusted.
  lemma ChainAppends(c: Config, top: nat, desc: Descriptor, d: Data)
    requires !c.allow && desc.ChainDesc? && desc.location != 0 && desc.nameLen <= |desc.text|
    ensures var images := LoadVbmeta(c, top, desc.location, desc.text, desc.nameLen, Some(desc.key), d).1.images;
            || images == d.images
            || (|images| == |d.images| + 1 && images[..|d.images|] == d.images
                && images[|d.images|].verifyResult == ImageOk && ChainedBy(c, desc, images[|d.images|]))
  {
    var (text, location, key) := (desc.text, desc.location, Some(desc.key));
    var found := Find(c, location, text[..desc.nameLen], IsVbmeta(text));
    if c.ops.utf8(text[..desc.nameLen]) && found.FoundImage? {
      var v := found.vbmeta;
      var check := Check(c, location, key, v);
      if check.Continue? && |d.images| != MAX_VBMETA_IMAGES {
        CheckMeaning(c, location, key, v);
        CheckGoesOn(c, location, key, v);
        ChainedWalkKeepsImages(c, top, location, v, 0, check.ret, d.(images := d.images + [Image(CString(text), v, v.verdict)]));
      }
    }
  }

  lemma OneMoreTrusted(c: Config, before: seq<Image>, images: seq<Image>, i: nat)
    requires before != [] && ImagesTrusted(c, before) && i < |before[0].vbmeta.descriptors|
    requires |images| == |before| + 1 && images[..|before|] == before
    requires images[|before|].verifyResult == ImageOk && ChainedBy(c, before[0].vbmeta.descriptors[i], images[|before|])
    ensures ImagesTrusted(c, images) && images[0] == before[0]
  {
    forall k | 0 <= k < |before| ensures images[k] == before[k] {
      assert images[..|before|][k] == images[k];
    }
  }

  lemma {:induction false} MainWalkTrusts(c: Config, top: nat, v: Vbmeta, n: nat, ret: VerifyResult, d: Data)
    requires !c.allow && n <= |v.descriptors| && d.images != [] && d.images[0].vbmeta == v && ImagesTrusted(c, d.images)
    ensures ImagesTrusted(c, Walk(c, top, 0, v, n, ret, d).1.images)
    decreases |v.descriptors| - n
  {
    if n < |v.descriptors| {
      var desc := v.descriptors[n];
      var one := Visit(c, top, 0, desc, ret, d);
      if desc.ChainDesc? && desc.valid && desc.location != 0 && desc.nameLen <= |desc.text| {
        ChainAppends(c, top, desc, d);
        if one.1.images != d.images {
          OneMoreTrusted(c, d.images, one.1.images, n);
        }
      }
      if one.0.Continue? {
        MainWalkTrusts(c, top, v, n + 1, one.0.ret, one.1);
      }
    }
  }

  lemma MainTrusts(c: Config, top: nat, text: string, nameLen: nat, d: Data)
    requires !c.allow && nameLen <= |text| && d.images == []
    ensures ImagesTrusted(c, LoadVbmeta(c, top, 0, text, nameLen, None, d).1.images)
    decreases Rank(0, text)
  {
    if c.ops.utf8(text[..nameLen]) {
      var found := Find(c, 0, text[..nameLen], IsVbmeta(text));
      if found.TryBoot? {
        assert !IsVbmeta("boot") by { assert "boot"[0] == 'b'; }
        MainTrusts(c, 0, "boot", 4, d);
      } else if found.FoundImage? {
        var v := found.vbmeta;
        var check := Check(c, 0, None, v);
        if check.Continue? {
          CheckMeaning(c, 0, None, v);
          var d1 := d.(images := d.images + [Image(CString(text), v, v.verdict)]);
          assert d1.images == [Image(CString(text), v, v.verdict)];
          LoadRequestedExtends(c, 0, d1);
          MainWalkTrusts(c, v.flags, v, 0, check.ret, d1);
        }
      }
    }
  }

  // The promise of avb_slot_verify.h for strict mode and any descriptors: data come only with OK,
  // and every image in them was verified with an accepted key for its own rollback location.
  lemma StrictDataIsTrusted(c: Config, logging: bool)
    requires !c.allow && SlotVerify(c, logging).1.Some?
    ensures SlotVerify(c, logging).0 == VerifyOk
    ensures SlotVerify(c, logging).1.value.images != [] && ImagesTrusted(c, SlotVerify(c, logging).1.value.images)
  {
    var (ret, d) := LoadVbmeta(c, 0, 0, "vbmeta", 6, None, EmptyData());
    MainTrusts(c, 0, "vbmeta", 6, EmptyData());
    TopImageRecorded(c, 0, "vbmeta", 6, EmptyData());
    FinishCases(c, ret, d);
  }

  // ----- partitions

  predicate MatchesDescriptor(c: Config, h: Descriptor, l: Loaded) {
    && h.HashDesc? && h.valid && h.name == l.name && HashPartName(c, h).Some?
    && DigestMatches(c, h, HashPartName(c, h).value, l.data)
  }

  // A descriptor of an image that was recorded vouches for the bytes.
  predicate Vouched(c: Config, images: seq<Image>, l: Loaded) {
    exists k, i :: 0 <= k < |images| && 0 <= i < |images[k].vbmeta.descriptors|
                   && MatchesDescriptor(c, images[k].vbmeta.descriptors[i], l)
  }

  predicate LoadedMatch(c: Config, d: Data) {
    forall l :: l in d.loaded ==> Vouched(c, d.images, l)
  }

  lemma VouchedLonger(c: Config, d: Data, d': Data)
    requires LoadedMatch(c, d) && d.images <= d'.images && d'.loaded == d.loaded
    ensures LoadedMatch(c, d')
  {
    forall l | l in d'.loaded ensures Vouched(c, d'.images, l) {
      assert Vouched(c, d.images, l);
      var k, i :| 0 <= k < |d.images| && 0 <= i < |d.images[k].vbmeta.descriptors|
                  && MatchesDescriptor(c, d.images[k].vbmeta.descriptors[i], l);
      assert d'.images[k] == d.images[k];
    }
  }

  lemma HashMatches(c: Config, h: Descriptor, d: Data, k: nat, i: nat)
    requires LoadedMatch(c, d) && h.HashDesc? && HashGenuine(c, h)
    requires k < |d.images| && i < |d.images[k].vbmeta.descriptors| && d.images[k].vbmeta.descriptors[i] == h
    ensures LoadedMatch(c, HashPartition(c, h, d).1)
  {
    HashCheckMeaning(c, h);
    var d' := HashPartition(c, h, d).1;
    if d'.loaded != d.loaded {
      var l := d'.loaded[|d.loaded|];
      assert d'.loaded == d.loaded + [l] && d'.images == d.images;
      assert MatchesDescriptor(c, d.images[k].vbmeta.descriptors[i], l);
    }
  }

  // Of a genuine image nothing else is loaded, unless its flag turns verification off.
  lemma {:induction false} GenuineMatches(c: Config, top: nat, location: nat, text: string, nameLen: nat, key: Option<string>, d: Data)
    requires nameLen <= |text| && Genuine(c, location, text, nameLen, key) && LoadedMatch(c, d)
    ensures var d' := LoadVbmeta(c, top, location, text, nameLen, key, d).1;
            || LoadedMatch(c, d')
            || (location == 0 && |d'.images| > |d.images| && VerificationDisabled(d'.images[|d.images|].vbmeta.flags))
    decreases Rank(location, text), 1, 0
  {
    var found := Find(c, location, text[..nameLen], IsVbmeta(text));
    if found.TryBoot? {
      assert !IsVbmeta("boot") by { assert "boot"[0] == 'b'; }
      GenuineMatches(c, 0, 0, "boot", 4, None, d);
    } else {
      var v := found.vbmeta;
      CheckMeaning(c, location, key, v);
      var check := Check(c, location, key, v);
      CheckGoesOn(c, location, key, v);
      var d1 := d.(images := d.images + [Image(CString(text), v, v.verdict)]);
      if |d.images| != MAX_VBMETA_IMAGES {
        if VerificationDisabled(v.flags) {
          LoadRequestedExtends(c, 0, d1);
        } else {
          VouchedLonger(c, d, d1);
          WalkMatches(c, if location == 0 then v.flags else top, location, v, 0, check.ret, d1, |d.images|);
        }
      }
    }
  }

  lemma {:induction false} WalkMatches(c: Config, top: nat, location: nat, v: Vbmeta, n: nat, ret: VerifyResult, d: Data, k: nat)
    requires n <= |v.descriptors| && k < |d.images| && d.images[k].vbmeta == v && LoadedMatch(c, d)
    requires forall i :: n <= i < |v.descriptors| ==> DescriptorGenuine(c, location, v.descriptors[i])
    ensures LoadedMatch(c, Walk(c, top, location, v, n, ret, d).1)
    decreases if location == 0 then 1 else 0, 0, |v.descriptors| - n
  {
    if n < |v.descriptors| {
      var desc := v.descriptors[n];
      assert DescriptorGenuine(c, location, desc);
      var one := Visit(c, top, location, desc, ret, d);
      if desc.HashDesc? {
        HashMatches(c, desc, d, k, n);
      } else if desc.ChainDesc? {
        GenuineMatches(c, top, desc.location, desc.text, desc.nameLen, Some(desc.key), d);
        VbmetaExtends(c, top, desc.location, desc.text, desc.nameLen, Some(desc.key), d);
      }
      assert one.1.images[k] == d.images[k] && LoadedMatch(c, one.1);
      if one.0.Continue? {
        WalkMatches(c, top, location, v, n + 1, one.0.ret, one.1, k);
      }
    }
  }

  // What is returned for a slot in which nothing is wrong: every partition has the digest of a
  // descriptor that was reached.
  lemma GenuineSlotDataMatch(c: Config, logging: bool)
    requires SlotGenuine(c) && SlotVerify(c, logging).1.Some?
    ensures var d := SlotVerify(c, logging).1.value;
            d.images != [] && (VerificationDisabled(d.images[0].vbmeta.flags) || LoadedMatch(c, d))
  {
    var (ret, d) := LoadVbmeta(c, 0, 0, "vbmeta", 6, None, EmptyData());
    GenuineMatches(c, 0, 0, "vbmeta", 6, None, EmptyData());
    TopImageRecorded(c, 0, "vbmeta", 6, EmptyData());
    FinishCases(c, ret, d);
  }

  lemma OkDataMatch(c: Config, logging: bool)
    requires NothingHidden(c) && SlotVerify(c, logging).0 == VerifyOk
    ensures SlotVerify(c, logging).1.Some?
    ensures var d := SlotVerify(c, logging).1.value;
            d.images != [] && (VerificationDisabled(d.images[0].vbmeta.flags) || LoadedMatch(c, d))
  {
    SlotOkIsGenuine(c, logging);
    GenuineSlotDataMatch(c, logging);
  }
}
