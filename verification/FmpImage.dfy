/** FmpCapsuleImageHeaderClass of Tools/Python/GenCapsule/Uefi/Capsule/FmpCapsuleHeader.py: one
    firmware image with the header of section 23.3 of the UEFI Specification 2.10. */
module FmpImage {
  import opened Bytes
  import opened ByteOrder
  import opened PyStruct
  import opened Sequences

  const IMAGE_STRUCT_SIZE := 40
  const IMAGE_INIT_VERSION := 2

  // A UUID, written as its little-endian bytes.
  type Guid = g: seq<byte> | |g| == 16 witness seq(16, _ => 0)

  // The attributes of the object.
  datatype ImageHeader = ImageHeader(
    valid: bool, version: nat, typeId: Guid, index: nat, imageSize: nat, vendorCodeSize: nat,
    hardwareInstance: nat, payload: seq<byte>, vendorCode: seq<byte>)

  function NewImageHeader(): ImageHeader {
    ImageHeader(false, IMAGE_INIT_VERSION, seq(16, _ => 0), 0, 0, 0, 0, [], [])
  }

  // struct.pack refuses a number that does not fit its format.
  predicate Packable(h: ImageHeader) {
    h.version < U32 && h.index < U8 && |h.payload| < U32 && |h.vendorCode| < U32 && h.hardwareInstance < U64
  }

  function PackedHeader(h: ImageHeader): (s: seq<byte>)
    ensures |s| == IMAGE_STRUCT_SIZE
  {
    LeBytes(h.version, 4) + h.typeId + LeBytes(h.index, 1) + [0, 0, 0]
    + LeBytes(|h.payload|, 4) + LeBytes(|h.vendorCode|, 4) + LeBytes(h.hardwareInstance, 8)
  }

  function Sized(h: ImageHeader): ImageHeader {
    h.(imageSize := |h.payload|, vendorCodeSize := |h.vendorCode|)
  }

  function EncodeImage(h: ImageHeader): (Result<seq<byte>>, ImageHeader) {
    if !Packable(h) then (Raised(StructError), Sized(h))
    else (Ok(PackedHeader(h) + h.payload + h.vendorCode), Sized(h).(valid := true))
  }

  function DecodeImage(h: ImageHeader, buffer: seq<byte>): (Result<seq<byte>>, ImageHeader) {
    if |buffer| < IMAGE_STRUCT_SIZE then (Raised(ValueError), h)
    else
      var (version, index) := (LeVal(buffer[0..4]), LeVal(buffer[20..21]));
      var (imageSize, vendorCodeSize) := (LeVal(buffer[24..28]), LeVal(buffer[28..32]));
      if version < IMAGE_INIT_VERSION || index < 1 || imageSize + vendorCodeSize != |buffer| - IMAGE_STRUCT_SIZE then
        (Raised(ValueError), h)
      else
        (Ok(buffer[IMAGE_STRUCT_SIZE..]),
         ImageHeader(true, version, buffer[4..20], index, imageSize, vendorCodeSize, LeVal(buffer[32..40]),
                     buffer[IMAGE_STRUCT_SIZE..IMAGE_STRUCT_SIZE + imageSize], buffer[IMAGE_STRUCT_SIZE + imageSize..]))
  }

  // Where the fields of the packed header stand.
  lemma HeaderFields(h: ImageHeader)
    ensures var s := PackedHeader(h);
            && s[0..4] == LeBytes(h.version, 4) && s[4..20] == h.typeId && s[20..21] == LeBytes(h.index, 1)
            && s[24..28] == LeBytes(|h.payload|, 4) && s[28..32] == LeBytes(|h.vendorCode|, 4)
            && s[32..40] == LeBytes(h.hardwareInstance, 8)
  {
  }

  lemma SliceOfFront(s: seq<byte>, t: seq<byte>, i: nat, j: nat)
    requires i <= j <= |s|
    ensures (s + t)[i..j] == s[i..j]
  {
  }

  // Decoding accepts exactly the encodings with a version and an index that it allows, and
  // gives back every field; the object that decodes keeps nothing of its own.
  lemma ImageRoundTrip(h: ImageHeader, other: ImageHeader)
    requires EncodeImage(h).0.Ok?
    ensures var buffer := EncodeImage(h).0.value;
            && |buffer| == IMAGE_STRUCT_SIZE + |h.payload| + |h.vendorCode|
            && (DecodeImage(other, buffer).0.Ok? <==> h.version >= IMAGE_INIT_VERSION && h.index >= 1)
            && (DecodeImage(other, buffer).0.Ok? ==>
                  DecodeImage(other, buffer) == (Ok(h.payload + h.vendorCode), EncodeImage(h).1))
  {
    var (s, body) := (PackedHeader(h), h.payload + h.vendorCode);
    var buffer := EncodeImage(h).0.value;
    assert buffer == s + body;
    HeaderFields(h);
    SliceOfFront(s, body, 0, 4);
    SliceOfFront(s, body, 4, 20);
    SliceOfFront(s, body, 20, 21);
    SliceOfFront(s, body, 24, 28);
    SliceOfFront(s, body, 28, 32);
    SliceOfFront(s, body, 32, 40);
    PackedValue(h.version, 4);
    PackedValue(h.index, 1);
    PackedValue(|h.payload|, 4);
    PackedValue(|h.vendorCode|, 4);
    PackedValue(h.hardwareInstance, 8);
    assert buffer[IMAGE_STRUCT_SIZE..] == body;
    assert buffer[IMAGE_STRUCT_SIZE..IMAGE_STRUCT_SIZE + |h.payload|] == h.payload;
    assert buffer[IMAGE_STRUCT_SIZE + |h.payload|..] == h.vendorCode;
  }

  // The other way round: an accepted buffer is encoded again to the same bytes exactly when
  // its reserved bytes are zero.
  lemma ImageReencode(buffer: seq<byte>, other: ImageHeader)
    requires DecodeImage(other, buffer).0.Ok?
    ensures var h := DecodeImage(other, buffer).1;
            EncodeImage(h).0.Ok? && (EncodeImage(h).0.value == buffer <==> buffer[21..24] == [0, 0, 0])
  {
    var h := DecodeImage(other, buffer).1;
    Widths();
    LeValBack(buffer[0..4]);
    LeValBack(buffer[20..21]);
    LeValBack(buffer[24..28]);
    LeValBack(buffer[28..32]);
    LeValBack(buffer[32..40]);
    var (front, z, last) := (buffer[0..21], buffer[21..24], buffer[24..40]);
    HeaderParts(buffer);
    PackedParts(h, front, last);
    assert EncodeImage(h).0.value == PackedHeader(h) + h.payload + h.vendorCode;
    SameReserved(buffer, front, z, last, h.payload, h.vendorCode);
  }

  lemma SameReserved(buffer: seq<byte>, front: seq<byte>, z: seq<byte>, last: seq<byte>, p: seq<byte>, v: seq<byte>)
    requires |z| == 3 && buffer == front + z + (last + (p + v))
    ensures front + [0, 0, 0] + last + p + v == buffer <==> z == [0, 0, 0]
  {
    SameMiddle(front, [0, 0, 0], z, last + (p + v));
    assert front + [0, 0, 0] + last + p + v == front + [0, 0, 0] + (last + (p + v));
  }

  lemma HeaderParts(s: seq<byte>)
    requires |s| >= 40
    ensures s[0..4] + s[4..20] + s[20..21] == s[0..21]
    ensures s[24..28] + s[28..32] + s[32..40] == s[24..40]
    ensures s == s[0..21] + s[21..24] + (s[24..40] + s[40..])
  {
  }

  lemma PackedParts(h: ImageHeader, front: seq<byte>, last: seq<byte>)
    requires front == LeBytes(h.version, 4) + h.typeId + LeBytes(h.index, 1)
    requires last == LeBytes(|h.payload|, 4) + LeBytes(|h.vendorCode|, 4) + LeBytes(h.hardwareInstance, 8)
    ensures PackedHeader(h) == front + [0, 0, 0] + last
  {
  }

  class FmpCapsuleImageHeader {
    var valid: bool
    var version: nat
    var updateImageTypeId: Guid
    var updateImageIndex: nat
    var updateImageSize: nat
    var updateVendorCodeSize: nat
    var updateHardwareInstance: nat
    var payload: seq<byte>
    var vendorCodeBytes: seq<byte>

    function Contents(): ImageHeader
      reads this
    {
      ImageHeader(valid, version, updateImageTypeId, updateImageIndex, updateImageSize, updateVendorCodeSize,
                  updateHardwareInstance, payload, vendorCodeBytes)
    }

    constructor ()
      ensures Contents() == NewImageHeader()
    {
      valid, version := false, IMAGE_INIT_VERSION;
      updateImageTypeId := seq(16, _ => 0);
      updateImageIndex, updateImageSize, updateVendorCodeSize, updateHardwareInstance := 0, 0, 0, 0;
      payload, vendorCodeBytes := [], [];
    }

    method Encode() returns (r: Result<seq<byte>>)
      modifies this
      ensures (r, Contents()) == EncodeImage(old(Contents()))
    {
      updateImageSize := |payload|;
      updateVendorCodeSize := |vendorCodeBytes|;
      if version >= U32 || updateImageIndex >= U8 || updateImageSize >= U32 || updateVendorCodeSize >= U32
         || updateHardwareInstance >= U64 {
        return Raised(StructError);
      }
      var header := LeBytes(version, 4) + updateImageTypeId + LeBytes(updateImageIndex, 1) + [0, 0, 0]
                    + LeBytes(updateImageSize, 4) + LeBytes(updateVendorCodeSize, 4) + LeBytes(updateHardwareInstance, 8);
      valid := true;
      r := Ok(header + payload + vendorCodeBytes);
    }

    method Decode(buffer: seq<byte>) returns (r: Result<seq<byte>>)
      modifies this
      ensures (r, Contents()) == DecodeImage(old(Contents()), buffer)
    {
      if |buffer| < IMAGE_STRUCT_SIZE {
        return Raised(ValueError);
      }
      var newVersion, newIndex := LeVal(buffer[0..4]), LeVal(buffer[20..21]);
      var newSize, newVendorCodeSize := LeVal(buffer[24..28]), LeVal(buffer[28..32]);
      if newVersion < IMAGE_INIT_VERSION {
        return Raised(ValueError);
      }
      if newIndex < 1 {
        return Raised(ValueError);
      }
      if newSize + newVendorCodeSize != |buffer[IMAGE_STRUCT_SIZE..]| {
        return Raised(ValueError);
      }
      version, updateImageTypeId, updateImageIndex := newVersion, buffer[4..20], newIndex;
      updateImageSize, updateVendorCodeSize := newSize, newVendorCodeSize;
      updateHardwareInstance := LeVal(buffer[32..40]);
      payload := buffer[IMAGE_STRUCT_SIZE..IMAGE_STRUCT_SIZE + updateImageSize];
      vendorCodeBytes := buffer[IMAGE_STRUCT_SIZE + updateImageSize..];
      valid := true;
      r := Ok(buffer[IMAGE_STRUCT_SIZE..]);
    }
  }
}
