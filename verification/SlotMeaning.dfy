/** The single steps of Application/UefiAvb/libavb/avb_slot_verify.c read off the answers of the
    device: which bytes are loaded from where, what is hashed, and which error each failure gives. */
module SlotMeaning {
  import opened Bytes
  import opened AvbTypes
  import opened SlotSpec

  // ----- loading

  // Exactly `size` bytes are delivered, by the preloading operation if there is one and it has them.
  predicate Delivers(c: Config, part: string, size: u64, data: string) {
    || (c.ops.preloaded.Some? && c.ops.preloaded.value(part, size) == Got(Preloaded(Some(data), size)))
    || ((c.ops.preloaded.None? || (c.ops.preloaded.value(part, size).Got? && c.ops.preloaded.value(part, size).value.buffer.None?))
        && c.ops.read(part, size) == Got(data) && |data| == size)
  }

  lemma LoadMeaning(c: Config, part: string, size: u64, data: string)
    ensures LoadFull(c, part, size) == (VerifyOk, data) <==> Delivers(c, part, size, data)
  {
  }

  // Otherwise the answer of the operation that failed decides the error; a short read is an I/O error.
  lemma LoadErrors(c: Config, part: string, size: u64)
    ensures var preload := c.ops.preloaded.Some?;
            var failed := preload && !c.ops.preloaded.value(part, size).Got?;
            var readsDirectly := !preload || (!failed && c.ops.preloaded.value(part, size).value.buffer.None?);
            var ret := LoadFull(c, part, size).0;
            && ret in {VerifyOk, VerifyOom, VerifyIo}
            && (ret == VerifyOom <==>
                  || (failed && c.ops.preloaded.value(part, size).NoMemory?)
                  || (readsDirectly && c.ops.read(part, size).NoMemory?))
  {
  }

  // The stored digest is used exactly if it has the length that was asked for; the size is looked at
  // before the remaining error codes are.
  lemma PersistentMeaning(c: Config, part: string, size: nat, digest: string)
    ensures ReadPersistent(c, part, size) == (VerifyOk, digest) <==>
              c.ops.persistent.Some? && c.ops.persistent.value(part, size) == PersistentRead(PersistentOk, digest, size)
    ensures ReadPersistent(c, part, size).0 == VerifyOom <==>
              c.ops.persistent.Some? && c.ops.persistent.value(part, size).code == PersistentOom
    ensures ReadPersistent(c, part, size).0 == VerifyIo <==>
              && c.ops.persistent.Some? && c.ops.persistent.value(part, size).code == PersistentFailed
              && c.ops.persistent.value(part, size).storedSize == size
    ensures ReadPersistent(c, part, size).0 in {VerifyOk, VerifyOom, VerifyIo, VerifyInvalidMetadata}
  {
    if c.ops.persistent.Some? {
      var p := c.ops.persistent.value(part, size);
      assert p == PersistentRead(p.code, p.digest, p.storedSize);
    }
  }

  // ----- the hash of a partition

  // The name of the partition fits in 32 bytes with its terminator, and a partition whose digest is
  // stored elsewhere has no suffix.
  predicate Named(c: Config, h: Descriptor, part: string)
    requires h.HashDesc?
  {
    && part == (if h.noAb then h.name else h.name + c.suffix)
    && |part| < 32
    && (h.noAb || h.digest != "" || c.suffix == "")
  }

  // When verification errors are allowed and sizes are known the whole partition is read, otherwise
  // as much as the descriptor says.
  predicate Sized(c: Config, h: Descriptor, part: string, size: u64)
    requires h.HashDesc?
  {
    if c.allow && c.ops.sizeOf.Some? then c.ops.sizeOf.value(part) == Got(size) else size == h.imageSize
  }

  // The first bytes of the image, behind the salt, have the expected digest of 32 or 64 bytes.
  predicate Digested(c: Config, h: Descriptor, part: string, data: string)
    requires h.HashDesc?
  {
    var n := h.imageSize % 0x1_0000_0000;
    var front := if n < |data| then data[..n] else data;
    var digest := c.ops.digest(h.algorithm, h.salt + front);
    var len := if h.algorithm == Sha256 then 32 else 64;
    && (h.algorithm == Sha256 || h.algorithm == Sha512)
    && if h.digest != "" then
         |h.digest| == len && digest == h.digest
       else
         c.ops.persistent.Some? && c.ops.persistent.value(part, len) == PersistentRead(PersistentOk, digest, len)
  }

  // A hash descriptor of a requested partition is satisfied exactly by data that the device delivers
  // for the partition that it names and that have its digest.
  lemma HashOkIff(c: Config, h: Descriptor, data: string)
    requires h.HashDesc?
    ensures HashCheck(c, h) == (VerifyOk, Some(data)) <==>
              && h.valid && c.ops.utf8(h.name) && h.name in c.requested
              && exists part: string, size: u64 ::
                   Named(c, h, part) && Sized(c, h, part, size) && Delivers(c, part, size, data) && Digested(c, h, part, data)
  {
    if h.valid && c.ops.utf8(h.name) && h.name in c.requested {
      var part := if h.noAb then h.name else h.name + c.suffix;
      NameMeaning(c, h);
      if HashPartName(c, h).Some? {
        HashedFrom(c, h, part, data);
      }
    }
  }

  lemma NameMeaning(c: Config, h: Descriptor)
    requires h.HashDesc?
    ensures var part := if h.noAb then h.name else h.name + c.suffix;
            HashPartName(c, h) == if Named(c, h, part) then Some(part) else None
  {
  }

  lemma HashedFrom(c: Config, h: Descriptor, part: string, data: string)
    requires h.HashDesc? && h.valid && c.ops.utf8(h.name) && h.name in c.requested
    requires HashPartName(c, h) == Some(part) && Named(c, h, part)
    ensures HashCheck(c, h) == (VerifyOk, Some(data)) <==>
              exists size: u64 :: Sized(c, h, part, size) && Delivers(c, part, size, data) && Digested(c, h, part, data)
  {
    DigestMeaning(c, h, part, data);
    match HashLoadSize(c, h, part)
    case Got(size) =>
      LoadMeaning(c, part, size, data);
      assert Sized(c, h, part, size);
    case _ =>
  }

  lemma DigestMeaning(c: Config, h: Descriptor, part: string, data: string)
    requires h.HashDesc?
    ensures CompareDigest(c, h, part, data) == VerifyOk <==> Digested(c, h, part, data)
  {
    var n := h.imageSize % 0x1_0000_0000;
    assert n == |data| ==> data[..n] == data;
    var len := if h.algorithm == Sha256 then 32 else 64;
    PersistentMeaning(c, part, len, c.ops.digest(h.algorithm, Hashed(h, data)));
  }

  // ----- the image

  // An image is found in its partition: at the start of the one named vbmeta, elsewhere where the
  // footer says, and never longer than 64 KiB.
  lemma FindMeaning(c: Config, location: nat, name: string, isVbmeta: bool, v: Vbmeta)
    ensures Find(c, location, name, isVbmeta) == FoundImage(v) <==>
              && |name| + |c.suffix| < 32
              && var part := name + c.suffix;
                 if isVbmeta then c.ops.vbmeta(part, 0, 65536) == Got(v)
                 else
                   && c.ops.footer(part).Got? && c.ops.footer(part).value.Some?
                   && var f := c.ops.footer(part).value.value;
                      f.vbmetaSize <= 65536 && c.ops.vbmeta(part, f.vbmetaOffset, f.vbmetaSize) == Got(v)
    ensures Find(c, location, name, isVbmeta) == TryBoot <==>
              isVbmeta && location == 0 && |name| + |c.suffix| < 32 && c.ops.vbmeta(name + c.suffix, 0, 65536).NoSuchPartition?
  {
  }

  // A footer that is not there, or that speaks of a larger image.
  predicate BadFooter(c: Config, part: string) {
    c.ops.footer(part).Got? && (c.ops.footer(part).value.None? || c.ops.footer(part).value.value.vbmetaSize > 65536)
  }

  predicate OutOfMemory(c: Config, part: string, isVbmeta: bool) {
    if isVbmeta then c.ops.vbmeta(part, 0, 65536).NoMemory?
    else if c.ops.footer(part).Got? && c.ops.footer(part).value.Some? then
      var f := c.ops.footer(part).value.value;
      f.vbmetaSize <= 65536 && c.ops.vbmeta(part, f.vbmetaOffset, f.vbmetaSize).NoMemory?
    else c.ops.footer(part).NoMemory?
  }

  // Without an image the name or the footer was bad, or an operation failed.
  lemma FindErrors(c: Config, location: nat, name: string, isVbmeta: bool)
    requires Find(c, location, name, isVbmeta).NotFound?
    ensures var (ret, part) := (Find(c, location, name, isVbmeta).ret, name + c.suffix);
            && ret in {VerifyInvalidMetadata, VerifyOom, VerifyIo}
            && (ret == VerifyInvalidMetadata <==> |part| >= 32 || (!isVbmeta && BadFooter(c, part)))
            && (ret == VerifyOom <==> |part| < 32 && OutOfMemory(c, part, isVbmeta))
  {
  }

  // The text before the first NUL, or all of it.
  lemma {:induction false} CStringMeaning(text: string, k: nat)
    requires k <= |text| && (k < |text| ==> text[k] == '\0') && forall i :: 0 <= i < k ==> text[i] != '\0'
    ensures CString(text) == text[..k]
    ensures IsVbmeta(text) <==> text[..k] == "vbmeta"
  {
    if k > 0 {
      CStringMeaning(text[1..], k - 1);
      assert text[..k] == [text[0]] + text[1..][..k - 1];
    }
  }

  // ----- the checks of an image

  predicate BadSignature(v: Vbmeta) { v.verdict in {NotSigned, HashMismatch, SignatureMismatch} }

  // The key is not the one of the chain descriptor, or not one that the device trusts. An image
  // without a good signature has no key to be looked at.
  predicate WrongKey(c: Config, key: Option<string>, v: Vbmeta) {
    v.verdict == ImageOk && if key.Some? then key.value != v.key else c.ops.keyTrusted(v) == Got(false)
  }

  predicate KeyUnknown(c: Config, key: Option<string>, v: Vbmeta) {
    v.verdict == ImageOk && key.None? && !c.ops.keyTrusted(v).Got?
  }

  predicate RolledBack(c: Config, location: nat, v: Vbmeta) {
    c.ops.rollback(location).Got? && v.rollbackIndex < c.ops.rollback(location).value
  }

  // When errors are allowed an image is used exactly if its header is sound, its flags are in the
  // top-level image, and the device answered; the last failed check is what is reported.
  lemma AllowedCheck(c: Config, location: nat, key: Option<string>, v: Vbmeta)
    requires c.allow
    ensures Check(c, location, key, v).Continue? <==>
              && v.verdict != InvalidHeader && v.verdict != UnsupportedVersion
              && (location == 0 || v.flags == 0) && !KeyUnknown(c, key, v) && c.ops.rollback(location).Got?
    ensures Check(c, location, key, v).Continue? ==>
              Check(c, location, key, v).ret ==
                if RolledBack(c, location, v) then VerifyRollbackIndex
                else if WrongKey(c, key, v) then VerifyKeyRejected
                else if BadSignature(v) then VerifyVerification
                else VerifyOk
  {
  }

  // Otherwise the first failed check ends the verification of the image.
  lemma StrictCheck(c: Config, location: nat, key: Option<string>, v: Vbmeta)
    requires !c.allow
    ensures var check := Check(c, location, key, v);
            && (check == Stop(VerifyVerification) <==> BadSignature(v))
            && (check == Stop(VerifyUnsupportedVersion) <==> v.verdict == UnsupportedVersion)
            && (check == Stop(VerifyInvalidMetadata) <==>
                  v.verdict == InvalidHeader || (v.verdict == ImageOk && location != 0 && v.flags != 0))
            && (v.verdict == ImageOk && (location == 0 || v.flags == 0) ==>
                  && (check == Stop(VerifyKeyRejected) <==> WrongKey(c, key, v))
                  && (check == Stop(VerifyRollbackIndex) <==>
                        !WrongKey(c, key, v) && !KeyUnknown(c, key, v) && RolledBack(c, location, v)))
  {
  }

  // ----- what is recorded

  // An image that is used is added under its name, with its verdict.
  lemma ImageRecorded(c: Config, top: nat, location: nat, text: string, nameLen: nat, key: Option<string>, d: Data, v: Vbmeta)
    requires nameLen <= |text| && c.ops.utf8(text[..nameLen])
    requires Find(c, location, text[..nameLen], IsVbmeta(text)) == FoundImage(v)
    requires Check(c, location, key, v).Continue? && |d.images| < 32
    ensures d.images + [Image(CString(text), v, v.verdict)] <= LoadVbmeta(c, top, location, text, nameLen, key, d).1.images
  {
    var d1 := d.(images := d.images + [Image(CString(text), v, v.verdict)]);
    LoadRequestedExtends(c, 0, d1);
    WalkExtends(c, if location == 0 then v.flags else top, location, v, 0, Check(c, location, key, v).ret, d1);
  }

  // Every recorded rollback index is the one in a recorded image.
  predicate IndexesOfImages(d: Data) {
    forall e :: e in d.entries ==> exists i :: 0 <= i < |d.images| && d.images[i].vbmeta.rollbackIndex == e.index
  }

  lemma MoreImages(d: Data, d': Data)
    requires IndexesOfImages(d) && d.images <= d'.images && d'.entries == d.entries
    ensures IndexesOfImages(d')
  {
    forall e | e in d'.entries ensures exists i :: 0 <= i < |d'.images| && d'.images[i].vbmeta.rollbackIndex == e.index {
      var i :| 0 <= i < |d.images| && d.images[i].vbmeta.rollbackIndex == e.index;
      assert d'.images[i] == d.images[i];
    }
  }

  lemma {:induction false} VbmetaRecords(c: Config, top: nat, location: nat, text: string, nameLen: nat, key: Option<string>, d: Data)
    requires nameLen <= |text| && IndexesOfImages(d)
    ensures IndexesOfImages(LoadVbmeta(c, top, location, text, nameLen, key, d).1)
    decreases Rank(location, text), 1, 0
  {
    if c.ops.utf8(text[..nameLen]) {
      var found := Find(c, location, text[..nameLen], IsVbmeta(text));
      if found.TryBoot? {
        assert !IsVbmeta("boot") by { assert "boot"[0] == 'b'; }
        VbmetaRecords(c, 0, 0, "boot", 4, None, d);
      } else if found.FoundImage? {
        var v := found.vbmeta;
        var check := Check(c, location, key, v);
        if check.Continue? && |d.images| != MAX_VBMETA_IMAGES {
          var d1 := d.(images := d.images + [Image(CString(text), v, v.verdict)]);
          MoreImages(d, d1);
          LoadRequestedExtends(c, 0, d1);
          MoreImages(d1, LoadRequested(c, 0, d1).1);
          var inner := if location == 0 then v.flags else top;
          WalkRecords(c, inner, location, v, 0, check.ret, d1);
          WalkExtends(c, inner, location, v, 0, check.ret, d1);
          LastRecord(Walk(c, inner, location, v, 0, check.ret, d1).1, location, v, check.ret, |d.images|);
        }
      }
    }
  }

  lemma LastRecord(d: Data, location: nat, v: Vbmeta, ret: VerifyResult, i: nat)
    requires IndexesOfImages(d) && i < |d.images| && d.images[i].vbmeta == v
    ensures forall r: VerifyResult :: IndexesOfImages(Record(d, location, v, r).1)
    ensures location < 32 ==> Record(d, location, v, ret) == (ret, d.(entries := d.entries + [RollbackEntry(location, v.rollbackIndex)]))
  {
    var entries := d.entries + [RollbackEntry(location, v.rollbackIndex)];
    forall e | e in entries ensures exists k :: 0 <= k < |d.images| && d.images[k].vbmeta.rollbackIndex == e.index {
      if e !in d.entries {
        assert d.images[i].vbmeta.rollbackIndex == e.index;
      }
    }
  }

  lemma {:induction false} WalkRecords(c: Config, top: nat, location: nat, v: Vbmeta, n: nat, ret: VerifyResult, d: Data)
    requires n <= |v.descriptors| && IndexesOfImages(d)
    ensures IndexesOfImages(Walk(c, top, location, v, n, ret, d).1)
    decreases if location == 0 then 1 else 0, 0, |v.descriptors| - n
  {
    if n < |v.descriptors| {
      var one := Visit(c, top, location, v.descriptors[n], ret, d);
      VisitRecords(c, top, location, v.descriptors[n], ret, d);
      if one.0.Continue? {
        WalkRecords(c, top, location, v, n + 1, one.0.ret, one.1);
      }
    }
  }

  lemma {:induction false} VisitRecords(c: Config, top: nat, location: nat, desc: Descriptor, ret: VerifyResult, d: Data)
    requires IndexesOfImages(d)
    ensures IndexesOfImages(Visit(c, top, location, desc, ret, d).1)
    decreases if location == 0 then 1 else 0, 0, 0
  {
    if desc.ChainDesc? && location == 0 && desc.location != 0 && desc.nameLen <= |desc.text| {
      VbmetaRecords(c, top, desc.location, desc.text, desc.nameLen, Some(desc.key), d);
    } else {
      SameLists(d, Visit(c, top, location, desc, ret, d).1);
    }
  }

  lemma SameLists(d: Data, d': Data)
    requires IndexesOfImages(d) && d'.images == d.images && d'.entries == d.entries
    ensures IndexesOfImages(d')
  {
  }

  // With verification turned off, the requested partitions are added in order, each under its own
  // name, with the bytes that the device delivers for the whole of it.
  ghost predicate WholePartition(c: Config, name: string, l: Loaded) {
    && l.name == name && |name| + |c.suffix| < 32 && c.ops.sizeOf.Some?
    && exists size: u64 :: c.ops.sizeOf.value(name + c.suffix) == Got(size) && Delivers(c, name + c.suffix, size, l.data)
  }

  lemma {:induction false} RequestedLoaded(c: Config, n: nat, d: Data)
    requires n <= |c.requested| && LoadRequested(c, n, d).0 == VerifyOk
    ensures var loaded := LoadRequested(c, n, d).1.loaded;
            && |loaded| == |d.loaded| + |c.requested| - n && d.loaded <= loaded
            && forall i :: n <= i < |c.requested| ==> WholePartition(c, c.requested[i], loaded[|d.loaded| + i - n])
    decreases |c.requested| - n
  {
    if n < |c.requested| {
      var one := LoadOne(c, c.requested[n], d);
      OneLoaded(c, c.requested[n], d);
      RequestedLoaded(c, n + 1, one.1);
    }
  }

  lemma OneLoaded(c: Config, name: string, d: Data)
    requires c.ops.sizeOf.Some? && LoadOne(c, name, d).0 == VerifyOk
    ensures var loaded := LoadOne(c, name, d).1.loaded;
            |loaded| == |d.loaded| + 1 && d.loaded <= loaded && WholePartition(c, name, loaded[|d.loaded|])
  {
    var size := c.ops.sizeOf.value(name + c.suffix).value;
    LoadMeaning(c, name + c.suffix, size, LoadFull(c, name + c.suffix, size).1);
  }

  // ----- what is full

  // The thirty-third loaded partition and the eleventh stored root digest are too many.
  lemma Limits(c: Config, h: Descriptor, t: Descriptor, d: Data)
    requires h.HashDesc? && t.HashtreeDesc?
    ensures HashCheck(c, h).1.Some? && ShouldContinue(HashCheck(c, h).0) ==>
              (HashPartition(c, h, d).0 == VerifyOom <==> |d.loaded| == 32)
    ensures |t.name| < 32 && t.algorithm != OtherAlgorithm && c.ops.utf8(t.name) && (t.noAb || c.suffix == "") ==>
              var len := match t.algorithm case Sha1 => 20 case Sha256 => 32 case _ => 64;
              ReadPersistent(c, t.name, len).0 == VerifyOk ==>
                RootDigest(c, t, true, d) ==
                  if d.substs < 10 then (VerifyOk, d.(substs := d.substs + 1)) else (VerifyInvalidMetadata, d)
  {
  }

  // So is the thirty-third image.
  lemma ImageLimit(c: Config, top: nat, location: nat, text: string, key: Option<string>, d: Data)
    requires c.ops.utf8(text) && Find(c, location, text, IsVbmeta(text)).FoundImage?
    requires Check(c, location, key, Find(c, location, text, IsVbmeta(text)).vbmeta).Continue? && |d.images| == 32
    ensures LoadVbmeta(c, top, location, text, |text|, key, d) == (VerifyOom, d)
  {
    assert text[..|text|] == text;
  }
}
