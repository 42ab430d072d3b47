/** FmpCapsuleHeaderClass of Tools/Python/GenCapsule/Uefi/Capsule/FmpCapsuleHeader.py in its own
    form: Encode and Decode fill the lists of the object while an offset runs along. */
module FmpCapsule {
  import opened Bytes
  import opened ByteOrder
  import opened FmpCapsuleSpec
  import opened FmpImage
  import opened PyStruct

  class FmpCapsuleHeader {
    var valid: bool
    var version: nat
    var embeddedDriverCount: nat
    var payloadItemCount: nat
    var itemOffsetList: seq<nat>
    var embeddedDriverList: seq<seq<byte>>
    var payloadList: seq<Payload>
    var imageHeaderList: seq<ImageHeader>

    function Contents(): Capsule
      reads this
    {
      Capsule(valid, version, embeddedDriverCount, payloadItemCount, itemOffsetList, embeddedDriverList, payloadList,
              imageHeaderList)
    }

    constructor ()
      ensures Contents() == NewCapsule()
    {
      valid, version := false, CAPSULE_INIT_VERSION;
      embeddedDriverCount, payloadItemCount := 0, 0;
      itemOffsetList, embeddedDriverList, payloadList, imageHeaderList := [], [], [], [];
    }

    method AddEmbeddedDriver(driver: seq<byte>)
      modifies this`embeddedDriverList
      ensures embeddedDriverList == old(embeddedDriverList) + [driver]
    {
      embeddedDriverList := embeddedDriverList + [driver];
    }

    method AddPayload(typeId: Guid, data: seq<byte>, vendorCode: seq<byte>, hardwareInstance: nat)
      modifies this`payloadList
      ensures payloadList == old(payloadList) + [Payload(typeId, data, vendorCode, hardwareInstance)]
    {
      payloadList := payloadList + [Payload(typeId, data, vendorCode, hardwareInstance)];
    }

    method Encode() returns (r: Result<seq<byte>>)
      modifies this
      ensures (r, Contents()) == EncodeCapsule(ImageCodec(), old(Contents()))
    {
      r := EncodeWith(ImageCodec());
    }

    // The body of Encode. The codec is the one of FmpImage, and only EncodeOne knows it.
    method EncodeWith(ghost codec: Codec) returns (r: Result<seq<byte>>)
      requires IsImageCodec(codec)
      modifies this
      ensures (r, Contents()) == EncodeCapsule(codec, old(Contents()))
    {
      ghost var c := Contents();
      embeddedDriverCount := |embeddedDriverList|;
      payloadItemCount := |payloadList|;
      if version >= U32 || embeddedDriverCount >= U16 || payloadItemCount >= U16 {
        return Raised(StructError);
      }
      var header := LeBytes(version, 4) + LeBytes(embeddedDriverCount, 2) + LeBytes(payloadItemCount, 2);
      ghost var n := EncodedCount(codec, c.payloads, 0);
      ghost var items := c.drivers + Images(codec, c.payloads, n);
      var start := CAPSULE_STRUCT_SIZE + (embeddedDriverCount + payloadItemCount) * ITEM_OFFSET_SIZE;
      EncodedCases(codec, c, n, items, itemOffsetList + Offsets(start, items, |items|),
                   imageHeaderList + Headers(codec, c.payloads, n), header);
      r := EncodeItems(codec, header, start, n, items, itemOffsetList);
    }

    // Lines 200-227.
    method EncodeItems(ghost codec: Codec, header: seq<byte>, start: nat, ghost n: nat, ghost items: seq<seq<byte>>, ghost base: seq<nat>)
      returns (r: Result<seq<byte>>)
      requires IsImageCodec(codec) && n == EncodedCount(codec, payloadList, 0)
      requires items == embeddedDriverList + Images(codec, payloadList, n) && base == itemOffsetList
      modifies this`itemOffsetList, this`imageHeaderList, this`valid
      ensures itemOffsetList == base + Offsets(start, items, |items|)
      ensures imageHeaderList == old(imageHeaderList) + Headers(codec, payloadList, n)
      ensures n < |payloadList| ==> r == codec.encode(payloadList[n], n).0
      ensures n == |payloadList| && !OffsetsPackable(itemOffsetList) ==> r == Raised(StructError)
      ensures n == |payloadList| && OffsetsPackable(itemOffsetList) ==> r == Ok(Assembled(header, itemOffsetList, items))
      ensures valid == (old(valid) || (n == |payloadList| && OffsetsPackable(itemOffsetList)))
    {
      var data, offset := EncodeDrivers(start, items);
      r := EncodePayloads(codec, data, start, offset, n, items, base);
      if r.Raised? {
        return;
      }
      data := r.value;
      r := PackTable(header);
      if r.Raised? {
        return;
      }
      valid := true;
      r := Ok(r.value + data);
    }

    method EncodeDrivers(start: nat, ghost items: seq<seq<byte>>) returns (data: seq<byte>, offset: nat)
      requires |embeddedDriverList| <= |items| && items[..|embeddedDriverList|] == embeddedDriverList
      modifies this`itemOffsetList
      ensures data == Joined(items, |embeddedDriverList|) && offset == start + |data|
      ensures itemOffsetList == old(itemOffsetList) + Offsets(start, items, |embeddedDriverList|)
    {
      data, offset := [], start;
      var i := 0;
      while i < |embeddedDriverList|
        invariant 0 <= i <= |embeddedDriverList|
        invariant data == Joined(items, i) && offset == start + |data|
        invariant itemOffsetList == old(itemOffsetList) + Offsets(start, items, i)
      {
        var driver := embeddedDriverList[i];
        assert items[i] == driver;
        data := data + driver;
        itemOffsetList := itemOffsetList + [offset];
        offset := offset + |driver|;
        i := i + 1;
      }
    }

    method EncodePayloads(ghost codec: Codec, data0: seq<byte>, start: nat, offset0: nat,
                          ghost n: nat, ghost items: seq<seq<byte>>, ghost base: seq<nat>)
      returns (r: Result<seq<byte>>)
      requires IsImageCodec(codec) && n == EncodedCount(codec, payloadList, 0)
      requires items == embeddedDriverList + Images(codec, payloadList, n)
      requires data0 == Joined(items, |embeddedDriverList|) && offset0 == start + |data0|
      requires itemOffsetList == base + Offsets(start, items, |embeddedDriverList|)
      modifies this`itemOffsetList, this`imageHeaderList
      ensures itemOffsetList == base + Offsets(start, items, |items|)
      ensures imageHeaderList == old(imageHeaderList) + Headers(codec, payloadList, n)
      ensures r == if n < |payloadList| then codec.encode(payloadList[n], n).0 else Ok(Joined(items, |items|))
    {
      var (data, offset) := (data0, offset0);
      ghost var (images, headers) := (imageHeaderList, Headers(codec, payloadList, n));
      ghost var (i, k) := (0, |embeddedDriverList|);
      var index := 1;
      while index <= |payloadList|
        invariant index == i + 1 && k == |embeddedDriverList| + i && i <= n
        invariant data == Joined(items, k) && offset == start + |data|
        invariant itemOffsetList == base + Offsets(start, items, k)
        invariant imageHeaderList == images + headers[..i]
      {
        var image, imageHeader := EncodeOne(payloadList[index - 1], index, codec);
        if image.Raised? {
          return image;
        }
        ItemAndHeader(codec, embeddedDriverList, payloadList, n, i);
        data := Append(data, image.value, imageHeader, start, offset, items, k, base, images, headers, i);
        offset := offset + |image.value|;
        index := index + 1;
        i, k := i + 1, k + 1;
      }
      r := Ok(data);
    }

    // Lines 215-221.
    method Append(data: seq<byte>, image: seq<byte>, imageHeader: ImageHeader, start: nat, offset: nat, ghost items: seq<seq<byte>>,
                  ghost k: nat, ghost base: seq<nat>, ghost images: seq<ImageHeader>, ghost headers: seq<ImageHeader>, ghost i: nat)
      returns (data': seq<byte>)
      requires k < |items| && items[k] == image && i < |headers| && headers[i] == imageHeader
      requires data == Joined(items, k) && offset == start + |data|
      requires itemOffsetList == base + Offsets(start, items, k) && imageHeaderList == images + headers[..i]
      modifies this`itemOffsetList, this`imageHeaderList
      ensures data' == Joined(items, k + 1) && |data'| == |data| + |image|
      ensures itemOffsetList == base + Offsets(start, items, k + 1) && imageHeaderList == images + headers[..i + 1]
    {
      NextItem(items, k, image, start, base, headers, i, imageHeader);
      data' := data + image;
      itemOffsetList := itemOffsetList + [offset];
      imageHeaderList := imageHeaderList + [imageHeader];
      assert imageHeaderList == images + (headers[..i] + [imageHeader]);
    }

    // Lines 208-214.
    method EncodeOne(p: Payload, index: nat, ghost codec: Codec) returns (r: Result<seq<byte>>, imageHeader: ImageHeader)
      requires IsImageCodec(codec) && index >= 1
      ensures (r, imageHeader) == codec.encode(p, index - 1)
    {
      var h := new FmpCapsuleImageHeader();
      h.updateImageTypeId := p.typeId;
      h.updateImageIndex := index;
      h.payload := p.data;
      h.vendorCodeBytes := p.vendorCode;
      h.updateHardwareInstance := p.hardwareInstance;
      assert h.Contents() == HeaderFor(p, index - 1);
      r := h.Encode();
      imageHeader := h.Contents();
      assert EncodeImage(HeaderFor(p, index - 1)) == codec.encode(p, index - 1);
    }

    method Decode(buffer: seq<byte>) returns (r: Result<seq<byte>>)
      modifies this
      ensures (r, Contents()) == DecodeCapsule(ImageCodec(), old(Contents()), buffer)
    {
      r := DecodeWith(buffer, ImageCodec());
    }

    method DecodeWith(buffer: seq<byte>, ghost codec: Codec) returns (r: Result<seq<byte>>)
      requires IsImageCodec(codec)
      modifies this
      ensures (r, Contents()) == DecodeCapsule(codec, old(Contents()), buffer)
    {
      if |buffer| < CAPSULE_STRUCT_SIZE {
        return Raised(ValueError);
      }
      var newVersion, nd, np := LeVal(buffer[0..4]), LeVal(buffer[4..6]), LeVal(buffer[6..8]);
      if newVersion < CAPSULE_INIT_VERSION {
        return Raised(ValueError);
      }
      version, embeddedDriverCount, payloadItemCount := newVersion, nd, np;
      itemOffsetList, embeddedDriverList, payloadList, imageHeaderList := [], [], [], [];
      var error := ReadTable(buffer, nd + np);
      if error.Raised? {
        return Raised(error.error);
      }
      r := ReadItems(buffer, nd, np, codec);
    }

    // Lines 258-290.
    method ReadItems(buffer: seq<byte>, nd: nat, np: nat, ghost codec: Codec) returns (r: Result<seq<byte>>)
      requires IsImageCodec(codec) && embeddedDriverCount == nd && payloadItemCount == np && |itemOffsetList| == nd + np
      requires embeddedDriverList == [] && payloadList == [] && imageHeaderList == []
      modifies this
      ensures (r, Contents()) == DecodeItems(codec, old(Contents()), buffer)
    {
      var rest := Slice(buffer, CAPSULE_STRUCT_SIZE + (nd + np) * ITEM_OFFSET_SIZE, |buffer|);
      ReadDrivers(buffer, nd);
      r := ReadImages(buffer, nd, np, codec);
      if r.Raised? {
        return;
      }
      valid := true;
      r := Ok(rest);
    }

    // Lines 251-257.
    method ReadTable(buffer: seq<byte>, n: nat) returns (r: Result<bool>)
      requires itemOffsetList == []
      modifies this`itemOffsetList
      ensures var count := OffsetCount(buffer, 0, n);
              && itemOffsetList == ReadOffsets(buffer, count)
              && r == if count < n then Raised(OffsetAt(buffer, count).error) else Ok(true)
    {
      var (offset, index) := (CAPSULE_STRUCT_SIZE, 0);
      ghost var count := OffsetCount(buffer, 0, n);
      while index < n
        invariant 0 <= index <= count && offset == CAPSULE_STRUCT_SIZE + index * ITEM_OFFSET_SIZE
        invariant itemOffsetList == ReadOffsets(buffer, index)
      {
        if offset + ITEM_OFFSET_SIZE > |buffer| {
          assert OffsetAt(buffer, index) == Raised(StructError);
          return Raised(StructError);
        }
        var itemOffset := LeVal(buffer[offset..offset + ITEM_OFFSET_SIZE]);
        if itemOffset >= |buffer| {
          assert OffsetAt(buffer, index) == Raised(ValueError);
          return Raised(ValueError);
        }
        assert OffsetAt(buffer, index) == Ok(itemOffset);
        itemOffsetList := itemOffsetList + [itemOffset];
        offset := offset + ITEM_OFFSET_SIZE;
        index := index + 1;
      }
      r := Ok(true);
    }

    // Lines 263-269, with the slice Buffer[Offset:Offset + Length].
    method ReadDrivers(buffer: seq<byte>, nd: nat)
      requires nd <= |itemOffsetList| && embeddedDriverList == []
      modifies this`embeddedDriverList
      ensures embeddedDriverList == ItemsAt(buffer, itemOffsetList, nd)
    {
      var index := 0;
      while index < nd
        invariant 0 <= index <= nd
        invariant embeddedDriverList == ItemsAt(buffer, itemOffsetList, index)
      {
        AddEmbeddedDriver(ReadItem(buffer, itemOffsetList, index));
        index := index + 1;
      }
    }

    // Offset, Length and the slice as the source computes them; a negative Length gives an
    // empty slice.
    function ReadItem(buffer: seq<byte>, offsets: seq<nat>, index: nat): (r: seq<byte>)
      requires index < |offsets|
      ensures r == ItemAt(buffer, offsets, index)
    {
      var offset := offsets[index];
      var length := if index < |offsets| - 1 then offsets[index + 1] - offset else |buffer| - offset;
      Slice(buffer, offset, offset + length)
    }

    // Lines 274-287.
    method ReadImages(buffer: seq<byte>, nd: nat, np: nat, ghost codec: Codec) returns (r: Result<seq<byte>>)
      requires IsImageCodec(codec) && |itemOffsetList| == nd + np && payloadList == [] && imageHeaderList == []
      modifies this`payloadList, this`imageHeaderList
      ensures var last := ImageCount(codec, buffer, itemOffsetList, nd);
              && imageHeaderList == ImagesAt(codec, buffer, itemOffsetList, nd, last)
              && payloadList == PayloadsOf(imageHeaderList)
              && (last < nd + np ==> r == ImageAt(codec, buffer, itemOffsetList, last).0)
              && (last == nd + np ==> r.Ok?)
    {
      var index := nd;
      ghost var last := ImageCount(codec, buffer, itemOffsetList, nd);
      while index < nd + np
        invariant nd <= index <= last
        invariant imageHeaderList == ImagesAt(codec, buffer, itemOffsetList, nd, index)
        invariant payloadList == PayloadsOf(imageHeaderList)
      {
        var imageHeader;
        r, imageHeader := DecodeOne(ReadItem(buffer, itemOffsetList, index), codec);
        assert (r, imageHeader) == ImageAt(codec, buffer, itemOffsetList, index);
        if r.Raised? {
          return;
        }
        AddPayload(imageHeader.typeId, imageHeader.payload, imageHeader.vendorCode, 0);
        imageHeaderList := imageHeaderList + [imageHeader];
        index := index + 1;
      }
      r := Ok([]);
    }

    method DecodeOne(item: seq<byte>, ghost codec: Codec) returns (r: Result<seq<byte>>, imageHeader: ImageHeader)
      requires IsImageCodec(codec)
      ensures (r, imageHeader) == codec.decode(item)
    {
      var h := new FmpCapsuleImageHeader();
      r := h.Decode(item);
      imageHeader := h.Contents();
      assert DecodeImage(NewImageHeader(), item) == codec.decode(item);
    }

    method PackTable(header0: seq<byte>) returns (r: Result<seq<byte>>)
      ensures r == if OffsetsPackable(itemOffsetList) then Ok(header0 + PackedOffsets(itemOffsetList, |itemOffsetList|))
                   else Raised(StructError)
    {
      var header := header0;
      var i := 0;
      while i < |itemOffsetList|
        invariant 0 <= i <= |itemOffsetList|
        invariant header == header0 + PackedOffsets(itemOffsetList, i)
        invariant forall k :: 0 <= k < i ==> itemOffsetList[k] < U64
      {
        if itemOffsetList[i] >= U64 {
          return Raised(StructError);
        }
        header := header + LeBytes(itemOffsetList[i], 8);
        i := i + 1;
      }
      r := Ok(header);
    }
  }

  // What Encode returns and leaves behind, case by case.
  lemma EncodedCases(codec: Codec, c: Capsule, n: nat, items: seq<seq<byte>>, offsets: seq<nat>, headers: seq<ImageHeader>, head: seq<byte>)
    requires c.version < U32 && |c.drivers| < U16 && |c.payloads| < U16
    requires n == EncodedCount(codec, c.payloads, 0) && items == c.drivers + Images(codec, c.payloads, n)
    requires offsets == c.itemOffsets + Offsets(DataStart(c), items, |items|)
    requires headers == c.imageHeaders + Headers(codec, c.payloads, n) && head == CapsuleHead(c)
    ensures var filled := Capsule(c.valid, c.version, |c.drivers|, |c.payloads|, offsets, c.drivers, c.payloads, headers);
            EncodeCapsule(codec, c) ==
              if n < |c.payloads| then (codec.encode(c.payloads[n], n).0, filled)
              else if !OffsetsPackable(offsets) then (Raised(StructError), filled)
              else (Ok(Assembled(head, offsets, items)), filled.(valid := true))
  {
  }

  lemma ItemAndHeader(codec: Codec, drivers: seq<seq<byte>>, payloads: seq<Payload>, n: nat, i: nat)
    requires i < n <= |payloads|
    ensures (drivers + Images(codec, payloads, n))[|drivers| + i] == ImageBytes(codec, payloads[i], i)
    ensures Headers(codec, payloads, n)[i] == codec.encode(payloads[i], i).1
  {
  }

  lemma NextItem(items: seq<seq<byte>>, k: nat, image: seq<byte>, start: nat, base: seq<nat>,
                 headers: seq<ImageHeader>, i: nat, header: ImageHeader)
    requires k < |items| && items[k] == image && i < |headers| && headers[i] == header
    ensures Joined(items, k + 1) == Joined(items, k) + image
    ensures base + Offsets(start, items, k + 1) == (base + Offsets(start, items, k)) + [start + |Joined(items, k)|]
    ensures headers[..i + 1] == headers[..i] + [header]
  {
    OffsetsSnoc(base, start, items, k);
  }

  lemma OffsetsSnoc(base: seq<nat>, start: nat, items: seq<seq<byte>>, k: nat)
    requires k < |items|
    ensures base + Offsets(start, items, k + 1) == (base + Offsets(start, items, k)) + [start + Length(items, k)]
  {
  }

  // The codec is the one of FmpImage; the triggers keep its definition out of sight.
  ghost predicate IsImageCodec(codec: Codec) {
    && (forall p: Payload, i: nat {:trigger EncodeImage(HeaderFor(p, i))} :: codec.encode(p, i) == EncodeImage(HeaderFor(p, i)))
    && (forall b: seq<byte> {:trigger DecodeImage(NewImageHeader(), b)} :: codec.decode(b) == DecodeImage(NewImageHeader(), b))
  }
}
