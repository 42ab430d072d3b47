/** What a result of avb_slot_verify says about the slot. */
module SlotProofs {
  import opened Bytes
  import opened AvbTypes
  import opened SlotSpec

  // ----- what it means for a slot to be in order, said without the order of the checks

  predicate AtLeastStored(c: Config, location: nat, index: u64) {
    c.ops.rollback(location).Got? && c.ops.rollback(location).value <= index
  }

  // Signed by the right key, not rolled back, and without flags unless it is the top-level image.
  predicate Trusted(c: Config, location: nat, key: Option<string>, v: Vbmeta) {
    && v.verdict == ImageOk
    && (location == 0 || v.flags == 0)
    && (if key.Some? then key.value == v.key else c.ops.keyTrusted(v) == Got(true))
    && AtLeastStored(c, location, v.rollbackIndex)
  }

  // The data of a partition has the digest of its descriptor, or the persistent one.
  predicate DigestMatches(c: Config, h: Descriptor, part: string, data: string)
    requires h.HashDesc?
  {
    && (h.algorithm == Sha256 || h.algorithm == Sha512)
    && if h.digest == "" then
         ReadPersistent(c, part, DigestLength(h.algorithm)) == (VerifyOk, c.ops.digest(h.algorithm, Hashed(h, data)))
       else
         |h.digest| == DigestLength(h.algorithm) && c.ops.digest(h.algorithm, Hashed(h, data)) == h.digest
  }

  predicate HashGenuine(c: Config, h: Descriptor)
    requires h.HashDesc?
  {
    && h.valid && c.ops.utf8(h.name)
    && (h.name in c.requested ==>
          && HashPartName(c, h).Some?
          && var part := HashPartName(c, h).value;
          && HashLoadSize(c, h, part).Got?
          && var image := LoadFull(c, part, HashLoadSize(c, h, part).value);
          && image.0 == VerifyOk && DigestMatches(c, h, part, image.1))
  }

  predicate Present(c: Config, name: string) {
    && c.ops.sizeOf.Some?
    && Suffixed(name, c.suffix).Some?
    && var part := Suffixed(name, c.suffix).value;
    && c.ops.sizeOf.value(part).Got?
    && LoadFull(c, part, c.ops.sizeOf.value(part).value).0 == VerifyOk
  }

  predicate RootDigestKnown(c: Config, desc: Descriptor)
    requires desc.HashtreeDesc?
  {
    && c.ops.utf8(desc.name) && (desc.noAb || c.suffix == "") && |desc.name| < PART_NAME_MAX_SIZE
    && desc.algorithm != OtherAlgorithm
    && ReadPersistent(c, desc.name, DigestLength(desc.algorithm)).0 == VerifyOk
  }

  // The image can be found and trusted, and so can everything that its descriptors name.
  predicate Genuine(c: Config, location: nat, text: string, nameLen: nat, key: Option<string>)
    requires nameLen <= |text|
    decreases Rank(location, text), 1
  {
    && c.ops.utf8(text[..nameLen])
    && match Find(c, location, text[..nameLen], IsVbmeta(text))
       case NotFound(_) => false
       case TryBoot => Genuine(c, 0, "boot", 4, None)
       case FoundImage(v) =>
         && Trusted(c, location, key, v)
         && if VerificationDisabled(v.flags) then
              c.ops.sizeOf.Some? && forall i :: 0 <= i < |c.requested| ==> Present(c, c.requested[i])
            else
              location < MAX_ROLLBACK_LOCATIONS
              && forall i :: 0 <= i < |v.descriptors| ==> DescriptorGenuine(c, location, v.descriptors[i])
  }

  predicate DescriptorGenuine(c: Config, location: nat, desc: Descriptor)
    decreases if location == 0 then 1 else 0, 0
  {
    match desc
    case Malformed => false
    case HashDesc(_, _, _, _, _, _, _) => HashGenuine(c, desc)
    case ChainDesc(valid, chained, text, nameLen, key) =>
      location == 0 && valid && chained != 0 && nameLen <= |text| && Genuine(c, chained, text, nameLen, Some(key))
    case CmdlineDesc(valid, line, _, _) => valid && c.ops.utf8(line)
    case HashtreeDesc(valid, _, _, _, rootDigestLen) => valid && (rootDigestLen == 0 ==> RootDigestKnown(c, desc))
    case PropertyDesc => true
  }

  // ----- the single checks

  lemma CheckMeaning(c: Config, location: nat, key: Option<string>, v: Vbmeta)
    ensures Check(c, location, key, v) == Continue(VerifyOk) <==> Trusted(c, location, key, v)
    ensures Check(c, location, key, v).Stop? ==> Check(c, location, key, v).ret != VerifyOk
    ensures !c.allow && Check(c, location, key, v).Continue? ==> Trusted(c, location, key, v)
  {
  }

  lemma HashCheckMeaning(c: Config, h: Descriptor)
    requires h.HashDesc?
    ensures HashCheck(c, h).0 == VerifyOk <==> HashGenuine(c, h)
  {
  }

  // A verified partition that was asked for is among the loaded ones, with the bytes that were hashed.
  lemma VerifiedIsLoaded(c: Config, h: Descriptor, d: Data)
    requires h.HashDesc? && HashPartition(c, h, d).0 == VerifyOk && h.name in c.requested
    ensures HashPartName(c, h).Some?
    ensures exists data ::
              && DigestMatches(c, h, HashPartName(c, h).value, data)
              && HashPartition(c, h, d).1 == d.(loaded := d.loaded + [Loaded(h.name, data)])
  {
    HashCheckMeaning(c, h);
    var part := HashPartName(c, h).value;
    var data := LoadFull(c, part, HashLoadSize(c, h, part).value).1;
    assert HashPartition(c, h, d).1 == d.(loaded := d.loaded + [Loaded(h.name, data)]);
  }

  lemma {:induction false} LoadRequestedMeaning(c: Config, n: nat, d: Data)
    requires n <= |c.requested|
    ensures LoadRequested(c, n, d).0 == VerifyOk ==>
              c.ops.sizeOf.Some? && forall i :: n <= i < |c.requested| ==> Present(c, c.requested[i])
    ensures (c.ops.sizeOf.Some? && forall i :: n <= i < |c.requested| ==> Present(c, c.requested[i])) ==>
              LoadRequested(c, n, d).0 in {VerifyOk, VerifyOom}
    decreases |c.requested| - n
  {
    if c.ops.sizeOf.Some? && n < |c.requested| {
      var one := LoadOne(c, c.requested[n], d);
      if one.0 == VerifyOk {
        LoadRequestedMeaning(c, n + 1, one.1);
      }
    }
  }

  // ----- where line 1041 can hide an earlier error

  predicate NoPersistentFrom(v: Vbmeta, n: nat) {
    forall i :: n <= i < |v.descriptors| ==> !Persistent(v.descriptors[i])
  }

  // No descriptor without root digest stands behind a chain descriptor.
  predicate PersistentFirst(v: Vbmeta) {
    forall i :: 0 <= i < |v.descriptors| && v.descriptors[i].ChainDesc? ==> NoPersistentFrom(v, i)
  }

  predicate CannotHide(c: Config, v: Vbmeta) {
    if c.allow then NoPersistentFrom(v, 0) else PersistentFirst(v)
  }

  ghost predicate NothingHidden(c: Config) {
    forall part: string, offset: u64, size: u64 ::
      c.ops.vbmeta(part, offset, size).Got? ==> CannotHide(c, c.ops.vbmeta(part, offset, size).value)
  }

  lemma FoundCannotHide(c: Config, location: nat, name: string, isVbmeta: bool)
    requires NothingHidden(c) && Find(c, location, name, isVbmeta).FoundImage?
    ensures CannotHide(c, Find(c, location, name, isVbmeta).vbmeta)
  {
    var full := Suffixed(name, c.suffix).value;
    if isVbmeta {
      assert c.ops.vbmeta(full, 0, VBMETA_MAX_SIZE).Got?;
    } else {
      var footer := c.ops.footer(full).value.value;
      assert c.ops.vbmeta(full, footer.vbmetaOffset, footer.vbmetaSize).Got?;
    }
  }

  // The loop is left early only with an error.
  lemma {:induction false} WalkStopsWithError(c: Config, top: nat, location: nat, v: Vbmeta, n: nat, ret: VerifyResult, d: Data)
    requires n <= |v.descriptors|
    ensures Walk(c, top, location, v, n, ret, d).0 != Stop(VerifyOk)
    decreases |v.descriptors| - n
  {
    if n < |v.descriptors| {
      var one := Visit(c, top, location, v.descriptors[n], ret, d);
      if one.0.Continue? {
        WalkStopsWithError(c, top, location, v, n + 1, one.0.ret, one.1);
      }
    }
  }

  // ----- the whole call

  predicate SlotGenuine(c: Config) { Genuine(c, 0, "vbmeta", 6, None) }

  lemma FinishCases(c: Config, ret: VerifyResult, d: Data)
    requires d.images != []
    ensures Finish(c, ret, d).0 in {ret, VerifyOom, VerifyIo}
    ensures Finish(c, ret, d).0 == VerifyIo ==> ret == VerifyIo || !c.ops.unlocked.Got?
    ensures match Finish(c, ret, d).1
            case None => Finish(c, ret, d).0 in {VerifyOom, VerifyIo}
            case Some(f) => Finish(c, ret, d).0 == ret && f == d.(cmdline := f.cmdline)
  {
  }
}
