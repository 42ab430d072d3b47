/** The functions of Application/UefiAvb/libavb/avb_slot_verify.c that fill the slot data in
    place: counters, lists and the kernel command line are updated while the descriptors are
    visited. Each is shown to do what its function in SlotSpec says. */
module SlotVerify {
  import opened Bytes
  import opened AvbTypes
  import opened SlotSpec

  class AvbSlotVerifyData {
    var vbmetaImages: seq<Image>
    var loadedPartitions: seq<Loaded>
    var cmdline: Option<string>
    var rollbackIndexes: seq<u64>
    var substs: nat
    // What was written to rollbackIndexes, in order.
    ghost var entries: seq<RollbackEntry>

    ghost predicate Valid()
      reads this
    {
      (forall e :: e in entries ==> e.location < MAX_ROLLBACK_LOCATIONS) && rollbackIndexes == IndexesFrom(entries)
    }

    ghost function Contents(): Data
      reads this
    {
      Data(vbmetaImages, loadedPartitions, cmdline, entries, substs)
    }

    constructor ()
      ensures Valid() && Contents() == EmptyData()
    {
      vbmetaImages, loadedPartitions, cmdline := [], [], None;
      rollbackIndexes := seq(MAX_ROLLBACK_LOCATIONS, _ => 0);
      substs := 0;
      entries := [];
    }

    // load_and_verify_hash_partition
    method LoadAndVerifyHashPartition(c: Config, h: Descriptor) returns (ret: VerifyResult)
      requires Valid() && h.HashDesc?
      modifies this`loadedPartitions
      ensures Valid() && (ret, Contents()) == HashPartition(c, h, old(Contents()))
    {
      var imageBuf: Option<string>;
      ret, imageBuf := LoadAndCompare(c, h);
      if ShouldContinue(ret) && imageBuf.Some? {
        if |loadedPartitions| == MAX_LOADED_PARTITIONS {
          return VerifyOom;
        }
        loadedPartitions := loadedPartitions + [Loaded(h.name, imageBuf.value)];
      }
    }

    // Its lines 200-348.
    method LoadAndCompare(c: Config, h: Descriptor) returns (ret: VerifyResult, imageBuf: Option<string>)
      requires h.HashDesc?
      ensures (ret, imageBuf) == HashCheck(c, h)
    {
      imageBuf := None;
      if !h.valid || !c.ops.utf8(h.name) {
        return VerifyInvalidMetadata, None;
      }
      if h.name !in c.requested {
        return VerifyOk, None;
      }
      var part := HashPartName(c, h);
      if part.None? {
        return VerifyInvalidMetadata, None;
      }
      var imageSize := h.imageSize;
      if c.allow && c.ops.sizeOf.Some? {
        var size := c.ops.sizeOf.value(part.value);
        if !size.Got? {
          return IoCode(size), None;
        }
        imageSize := size.value;
      }
      var loaded := LoadFull(c, part.value, imageSize);
      ret := loaded.0;
      if ret != VerifyOk {
        return;
      }
      imageBuf := Some(loaded.1);
      ret := CompareDigest(c, h, part.value, loaded.1);
    }

    // load_requested_partitions
    method LoadRequestedPartitions(c: Config) returns (ret: VerifyResult)
      requires Valid()
      modifies this`loadedPartitions
      ensures Valid() && (ret, Contents()) == LoadRequested(c, 0, old(Contents()))
    {
      if c.ops.sizeOf.None? {
        return VerifyInvalidArgument;
      }
      var n := 0;
      while n < |c.requested|
        invariant 0 <= n <= |c.requested|
        invariant Valid() && LoadRequested(c, n, Contents()) == LoadRequested(c, 0, old(Contents()))
      {
        var part := Suffixed(c.requested[n], c.suffix);
        if part.None? {
          return VerifyInvalidMetadata;
        }
        var size := c.ops.sizeOf.value(part.value);
        if !size.Got? {
          return IoCode(size);
        }
        var image := LoadFull(c, part.value, size.value);
        if image.0 != VerifyOk {
          return image.0;
        }
        if |loadedPartitions| == MAX_LOADED_PARTITIONS {
          return VerifyOom;
        }
        loadedPartitions := loadedPartitions + [Loaded(c.requested[n], image.1)];
        n := n + 1;
      }
      return VerifyOk;
    }

    // load_and_verify_vbmeta
    method LoadAndVerifyVbmeta(c: Config, top: nat, location: nat, text: string, nameLen: nat, key: Option<string>)
      returns (ret: VerifyResult)
      requires Valid() && nameLen <= |text|
      modifies this
      ensures Valid() && (ret, Contents()) == LoadVbmeta(c, top, location, text, nameLen, key, old(Contents()))
      decreases Rank(location, text), 1, 0
    {
      if !c.ops.utf8(text[..nameLen]) {
        return VerifyInvalidMetadata;
      }
      var found := Find(c, location, text[..nameLen], IsVbmeta(text));
      if found.NotFound? {
        return found.ret;
      }
      if found.TryBoot? {
        ret := LoadAndVerifyVbmeta(c, 0, 0, "boot", 4, None);
        return;
      }
      var v := found.vbmeta;
      var check := Check(c, location, key, v);
      ret := check.ret;
      if check.Stop? {
        return;
      }
      if |vbmetaImages| == MAX_VBMETA_IMAGES {
        return VerifyOom;
      }
      vbmetaImages := vbmetaImages + [Image(CString(text), v, v.verdict)];
      if VerificationDisabled(v.flags) {
        var subRet := LoadRequestedPartitions(c);
        if subRet != VerifyOk {
          ret := subRet;
        }
        return;
      }
      var stop;
      ret, stop := ProcessDescriptors(c, if location == 0 then v.flags else top, location, v, ret);
      if stop {
        return;
      }
      if location >= MAX_ROLLBACK_LOCATIONS {
        return VerifyInvalidMetadata;
      }
      RecordIndex(location, v.rollbackIndex);
    }

    // Lines 1072-1073.
    method RecordIndex(location: nat, index: u64)
      requires Valid() && location < MAX_ROLLBACK_LOCATIONS
      modifies this`rollbackIndexes, this`entries
      ensures Valid() && entries == old(entries) + [RollbackEntry(location, index)]
      ensures rollbackIndexes == old(rollbackIndexes)[location := index]
    {
      rollbackIndexes := rollbackIndexes[location := index];
      entries := entries + [RollbackEntry(location, index)];
      assert entries[..|entries| - 1] == old(entries);
    }

    // The loop of lines 812-1063; stop tells whether it was left by a jump to `out`.
    method ProcessDescriptors(c: Config, top: nat, location: nat, v: Vbmeta, ret0: VerifyResult)
      returns (ret: VerifyResult, stop: bool)
      requires Valid()
      modifies this
      ensures Valid()
      ensures (if stop then Stop(ret) else Continue(ret), Contents()) == Walk(c, top, location, v, 0, ret0, old(Contents()))
      decreases if location == 0 then 1 else 0, 0, |v.descriptors|
    {
      ret := ret0;
      var n := 0;
      while n < |v.descriptors|
        invariant 0 <= n <= |v.descriptors|
        invariant Valid()
        invariant Walk(c, top, location, v, n, ret, Contents()) == Walk(c, top, location, v, 0, ret0, old(Contents()))
      {
        ret, stop := ProcessDescriptor(c, top, location, v.descriptors[n], ret);
        if stop {
          return;
        }
        n := n + 1;
      }
      stop := false;
    }

    method ProcessDescriptor(c: Config, top: nat, location: nat, desc: Descriptor, ret0: VerifyResult)
      returns (ret: VerifyResult, stop: bool)
      requires Valid()
      modifies this
      ensures Valid()
      ensures (if stop then Stop(ret) else Continue(ret), Contents()) == Visit(c, top, location, desc, ret0, old(Contents()))
      decreases if location == 0 then 1 else 0, 0, 0
    {
      ret, stop := ret0, false;
      match desc {
        case Malformed =>
          return VerifyInvalidMetadata, true;
        case HashDesc(_, _, _, _, _, _, _) =>
          var subRet := LoadAndVerifyHashPartition(c, desc);
          if subRet != VerifyOk {
            ret := subRet;
            stop := !c.allow || !ShouldContinue(ret);
          }
        case ChainDesc(valid, chained, text, nameLen, key) =>
          if location != 0 || !valid || chained == 0 || nameLen > |text| {
            return VerifyInvalidMetadata, true;
          }
          var subRet := LoadAndVerifyVbmeta(c, top, chained, text, nameLen, Some(key));
          if subRet != VerifyOk {
            ret := subRet;
            stop := !ShouldContinue(ret);
          }
        case CmdlineDesc(valid, line, _, _) =>
          if !valid || !c.ops.utf8(line) {
            return VerifyInvalidMetadata, true;
          }
          if AppliesTo(desc, top) {
            cmdline := Some(if cmdline.None? then line else cmdline.value + " " + line);
          }
        case HashtreeDesc(valid, _, _, _, rootDigestLen) =>
          if !valid {
            return VerifyInvalidMetadata, true;
          }
          if rootDigestLen == 0 {
            ret := FindRootDigest(c, desc, location == 0);
            stop := ret != VerifyOk;
          }
        case PropertyDesc =>
      }
    }

    // Lines 991-1056.
    method FindRootDigest(c: Config, desc: Descriptor, collect: bool) returns (ret: VerifyResult)
      requires Valid() && desc.HashtreeDesc?
      modifies this`substs
      ensures Valid() && (ret, Contents()) == RootDigest(c, desc, collect, old(Contents()))
    {
      if !c.ops.utf8(desc.name) || (!desc.noAb && c.suffix != "") || |desc.name| >= PART_NAME_MAX_SIZE
         || desc.algorithm == OtherAlgorithm {
        return VerifyInvalidMetadata;
      }
      ret := ReadPersistent(c, desc.name, DigestLength(desc.algorithm)).0;
      if ret == VerifyOk && collect {
        if substs >= MAX_CMDLINE_SUBST {
          return VerifyInvalidMetadata;
        }
        substs := substs + 1;
      }
    }

    // Lines 1175-1249; the first assertion of the source is the second precondition.
    method FinishCmdline(c: Config, ret0: VerifyResult) returns (ret: VerifyResult, ok: bool)
      requires Valid() && vbmetaImages != []
      requires VerificationDisabled(vbmetaImages[0].vbmeta.flags) ==> cmdline == None
      modifies this`cmdline
      ensures Valid()
      ensures (ret, if ok then Some(Contents()) else None) == Finish(c, ret0, old(Contents()))
    {
      var line;
      if VerificationDisabled(vbmetaImages[0].vbmeta.flags) {
        line := "root=PARTUUID=$(ANDROID_SYSTEM_PARTUUID)";
      } else {
        if !c.ops.unlocked.Got? {
          return IoCode(c.ops.unlocked), false;
        }
        line := if cmdline.None? then "" else cmdline.value;
      }
      var substituted := c.ops.substitute(line);
      if substituted.None? {
        return VerifyOom, false;
      }
      ghost var d := Contents();
      cmdline := substituted;
      assert Contents() == d.(cmdline := substituted);
      return ret0, true;
    }
  }

  // avb_slot_verify
  method AvbSlotVerify(c: Config, logging: bool) returns (ret: VerifyResult, outData: AvbSlotVerifyData?)
    ensures ret == SlotSpec.SlotVerify(c, logging).0
    ensures outData != null <==> SlotSpec.SlotVerify(c, logging).1.Some?
    ensures outData != null ==>
              outData.Valid() && fresh(outData) && outData.Contents() == SlotSpec.SlotVerify(c, logging).1.value
    ensures outData != null && !c.allow ==> ret == VerifyOk
  {
    if logging && !c.allow {
      return VerifyInvalidArgument, null;
    }
    var slotData := new AvbSlotVerifyData();
    var name := "vbmeta";
    TopImageRecorded(c, 0, name, 6, slotData.Contents());
    DisabledHasNoCmdline(c, 0, name, 6, slotData.Contents());
    ret := slotData.LoadAndVerifyVbmeta(c, 0, 0, name, 6, None);
    if !c.allow && ret != VerifyOk {
      return ret, null;
    }
    if !ShouldContinue(ret) {
      return ret, null;
    }
    var ok;
    ret, ok := slotData.FinishCmdline(c, ret);
    outData := if ok then slotData else null;
  }

  // With verification disabled in the top-level image no descriptor is visited.
  lemma DisabledHasNoCmdline(c: Config, top: nat, text: string, nameLen: nat, d: Data)
    requires nameLen <= |text| && d == EmptyData()
    ensures var (ret, d') := LoadVbmeta(c, top, 0, text, nameLen, None, d);
            d'.images != [] && VerificationDisabled(d'.images[0].vbmeta.flags) ==> d'.cmdline == None
    decreases Rank(0, text)
  {
    if c.ops.utf8(text[..nameLen]) {
      var found := Find(c, 0, text[..nameLen], IsVbmeta(text));
      if found.TryBoot? {
        assert !IsVbmeta("boot") by { assert "boot"[0] == 'b'; }
        DisabledHasNoCmdline(c, 0, "boot", 4, d);
      } else if found.FoundImage? {
        var v := found.vbmeta;
        var check := Check(c, 0, None, v);
        var d1 := d.(images := d.images + [Image(CString(text), v, v.verdict)]);
        if check.Continue? && |d.images| != MAX_VBMETA_IMAGES {
          LoadRequestedExtends(c, 0, d1);
          WalkExtends(c, v.flags, 0, v, 0, check.ret, d1);
          assert d1.images[0].vbmeta == v;
        }
      }
    }
  }
}
