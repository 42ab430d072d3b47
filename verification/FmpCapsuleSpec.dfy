/** FmpCapsuleHeaderClass of Tools/Python/GenCapsule/Uefi/Capsule/FmpCapsuleHeader.py as
    functions: embedded drivers and firmware images behind a table of offsets, laid out as in
    section 23.3 of the UEFI Specification 2.10. */
module FmpCapsuleSpec {
  import opened Bytes
  import opened ByteOrder
  import opened FmpImage
  import opened PyStruct

  const CAPSULE_STRUCT_SIZE := 8
  const ITEM_OFFSET_SIZE := 8
  const CAPSULE_INIT_VERSION := 1

  datatype Payload = Payload(typeId: Guid, data: seq<byte>, vendorCode: seq<byte>, hardwareInstance: nat)

  // The attributes of the object.
  datatype Capsule = Capsule(
    valid: bool, version: nat, driverCount: nat, payloadCount: nat, itemOffsets: seq<nat>,
    drivers: seq<seq<byte>>, payloads: seq<Payload>, imageHeaders: seq<ImageHeader>)

  function NewCapsule(): Capsule { Capsule(false, CAPSULE_INIT_VERSION, 0, 0, [], [], [], []) }

  // ----- byte strings one after the other

  function Length(items: seq<seq<byte>>, n: nat): nat
    requires n <= |items|
  {
    if n == 0 then 0 else Length(items, n - 1) + |items[n - 1]|
  }

  function Joined(items: seq<seq<byte>>, n: nat): (s: seq<byte>)
    requires n <= |items|
    ensures |s| == Length(items, n)
  {
    if n == 0 then [] else Joined(items, n - 1) + items[n - 1]
  }

  // The offsets of the first n items when the first of them stands at `start`.
  function Offsets(start: nat, items: seq<seq<byte>>, n: nat): (r: seq<nat>)
    requires n <= |items|
    ensures |r| == n
  {
    if n == 0 then [] else Offsets(start, items, n - 1) + [start + Length(items, n - 1)]
  }

  lemma {:induction false} OffsetOfItem(start: nat, items: seq<seq<byte>>, n: nat, k: nat)
    requires k < n <= |items|
    ensures Offsets(start, items, n)[k] == start + Length(items, k)
  {
    if k < n - 1 {
      OffsetOfItem(start, items, n - 1, k);
    }
  }

  // ----- encoding

  // How one image is encoded and decoded. The layout of a capsule does not depend on it, so
  // it stays unknown until ImageCodec.
  datatype Codec = Codec(
    encode: (Payload, nat) -> (Result<seq<byte>>, ImageHeader),
    decode: seq<byte> -> (Result<seq<byte>>, ImageHeader))

  // The header that Encode builds for the i-th payload; indexes count from one.
  function HeaderFor(p: Payload, i: nat): ImageHeader {
    NewImageHeader().(typeId := p.typeId, index := i + 1, payload := p.data, vendorCode := p.vendorCode,
                      hardwareInstance := p.hardwareInstance)
  }

  function ImageCodec(): Codec {
    Codec((p, i: nat) => EncodeImage(HeaderFor(p, i)), buffer => DecodeImage(NewImageHeader(), buffer))
  }

  function EncodedHeader(codec: Codec, p: Payload, i: nat): ImageHeader { codec.encode(p, i).1 }

  function ImageBytes(codec: Codec, p: Payload, i: nat): seq<byte> {
    var r := codec.encode(p, i).0;
    if r.Ok? then r.value else []
  }

  // From payload k on, how many of the first payloads can be encoded in a row.
  function EncodedCount(codec: Codec, payloads: seq<Payload>, k: nat): (n: nat)
    requires k <= |payloads|
    ensures k <= n <= |payloads|
    ensures forall i :: k <= i < n ==> codec.encode(payloads[i], i).0.Ok?
    ensures n < |payloads| ==> codec.encode(payloads[n], n).0.Raised?
    decreases |payloads| - k
  {
    if k == |payloads| || codec.encode(payloads[k], k).0.Raised? then k else EncodedCount(codec, payloads, k + 1)
  }

  function Images(codec: Codec, payloads: seq<Payload>, n: nat): (r: seq<seq<byte>>)
    requires n <= |payloads|
    ensures |r| == n
  {
    seq(n, i requires 0 <= i < n => ImageBytes(codec, payloads[i], i))
  }

  function Headers(codec: Codec, payloads: seq<Payload>, n: nat): (r: seq<ImageHeader>)
    requires n <= |payloads|
    ensures |r| == n
  {
    seq(n, i requires 0 <= i < n => EncodedHeader(codec, payloads[i], i))
  }

  function DataStart(c: Capsule): nat {
    CAPSULE_STRUCT_SIZE + (|c.drivers| + |c.payloads|) * ITEM_OFFSET_SIZE
  }

  function PackedOffsets(offsets: seq<nat>, n: nat): (s: seq<byte>)
    requires n <= |offsets|
    ensures |s| == n * ITEM_OFFSET_SIZE
  {
    if n == 0 then [] else PackedOffsets(offsets, n - 1) + LeBytes(offsets[n - 1], 8)
  }

  predicate OffsetsPackable(offsets: seq<nat>) { forall k :: 0 <= k < |offsets| ==> offsets[k] < U64 }

  function CapsuleHead(c: Capsule): (s: seq<byte>)
    ensures |s| == CAPSULE_STRUCT_SIZE
  {
    LeBytes(c.version, 4) + LeBytes(|c.drivers|, 2) + LeBytes(|c.payloads|, 2)
  }

  function Assembled(head: seq<byte>, offsets: seq<nat>, items: seq<seq<byte>>): seq<byte> {
    head + PackedOffsets(offsets, |offsets|) + Joined(items, |items|)
  }

  function EncodeCapsule(codec: Codec, c: Capsule): (Result<seq<byte>>, Capsule) {
    var counted := c.(driverCount := |c.drivers|, payloadCount := |c.payloads|);
    if c.version >= U32 || |c.drivers| >= U16 || |c.payloads| >= U16 then (Raised(StructError), counted)
    else
      var n := EncodedCount(codec, c.payloads, 0);
      var items := c.drivers + Images(codec, c.payloads, n);
      var filled := counted.(itemOffsets := c.itemOffsets + Offsets(DataStart(c), items, |items|),
                             imageHeaders := c.imageHeaders + Headers(codec, c.payloads, n));
      if n < |c.payloads| then (codec.encode(c.payloads[n], n).0, filled)
      else if !OffsetsPackable(filled.itemOffsets) then (Raised(StructError), filled)
      else
        (Ok(Assembled(CapsuleHead(c), filled.itemOffsets, items)), filled.(valid := true))
  }

  // ----- decoding

  function OffsetAt(buffer: seq<byte>, k: nat): (r: Result<nat>) {
    var lo := CAPSULE_STRUCT_SIZE + k * ITEM_OFFSET_SIZE;
    if lo + ITEM_OFFSET_SIZE > |buffer| then Raised(StructError)
    else
      var offset := LeVal(buffer[lo..lo + ITEM_OFFSET_SIZE]);
      if offset >= |buffer| then Raised(ValueError) else Ok(offset)
  }

  // From entry k on, how many of the first n entries of the table are good in a row.
  function OffsetCount(buffer: seq<byte>, k: nat, n: nat): (r: nat)
    requires k <= n
    ensures k <= r <= n && (r < n ==> OffsetAt(buffer, r).Raised?)
    ensures forall i :: k <= i < r ==> OffsetAt(buffer, i).Ok?
    decreases n - k
  {
    if k == n || OffsetAt(buffer, k).Raised? then k else OffsetCount(buffer, k + 1, n)
  }

  function ReadOffsets(buffer: seq<byte>, n: nat): (r: seq<nat>)
    requires forall i :: 0 <= i < n ==> OffsetAt(buffer, i).Ok?
    ensures |r| == n
  {
    seq(n, i requires 0 <= i < n => OffsetAt(buffer, i).value)
  }

  // Buffer[Offset:Offset + Length] for item k
  function ItemAt(buffer: seq<byte>, offsets: seq<nat>, k: nat): seq<byte>
    requires k < |offsets|
  {
    Slice(buffer, offsets[k], if k < |offsets| - 1 then offsets[k + 1] else |buffer|)
  }

  function ItemsAt(buffer: seq<byte>, offsets: seq<nat>, n: nat): (r: seq<seq<byte>>)
    requires n <= |offsets|
    ensures |r| == n
  {
    seq(n, k requires 0 <= k < n => ItemAt(buffer, offsets, k))
  }

  function ImageAt(codec: Codec, buffer: seq<byte>, offsets: seq<nat>, k: nat): (Result<seq<byte>>, ImageHeader)
    requires k < |offsets|
  {
    codec.decode(ItemAt(buffer, offsets, k))
  }

  // From item k on, where the first item stands that is not an image.
  function ImageCount(codec: Codec, buffer: seq<byte>, offsets: seq<nat>, k: nat): (r: nat)
    requires k <= |offsets|
    ensures k <= r <= |offsets| && (r < |offsets| ==> ImageAt(codec, buffer, offsets, r).0.Raised?)
    ensures forall i :: k <= i < r ==> ImageAt(codec, buffer, offsets, i).0.Ok?
    decreases |offsets| - k
  {
    if k == |offsets| || ImageAt(codec, buffer, offsets, k).0.Raised? then k else ImageCount(codec, buffer, offsets, k + 1)
  }

  function ImagesAt(codec: Codec, buffer: seq<byte>, offsets: seq<nat>, first: nat, last: nat): (r: seq<ImageHeader>)
    requires first <= last <= |offsets|
    ensures |r| == last - first
  {
    seq(last - first, i requires 0 <= i < last - first => ImageAt(codec, buffer, offsets, first + i).1)
  }

  // AddPayload is called without the hardware instance.
  function PayloadOf(h: ImageHeader): Payload { Payload(h.typeId, h.payload, h.vendorCode, 0) }

  function PayloadsOf(headers: seq<ImageHeader>): (r: seq<Payload>)
    ensures |r| == |headers|
  {
    seq(|headers|, i requires 0 <= i < |headers| => PayloadOf(headers[i]))
  }

  function DecodeCapsule(codec: Codec, c: Capsule, buffer: seq<byte>): (Result<seq<byte>>, Capsule) {
    if |buffer| < CAPSULE_STRUCT_SIZE || LeVal(buffer[0..4]) < CAPSULE_INIT_VERSION then (Raised(ValueError), c)
    else
      var (nd, np) := (LeVal(buffer[4..6]), LeVal(buffer[6..8]));
      var reset := Capsule(c.valid, LeVal(buffer[0..4]), nd, np, [], [], [], []);
      var n := OffsetCount(buffer, 0, nd + np);
      var read := reset.(itemOffsets := ReadOffsets(buffer, n));
      if n < nd + np then (Raised(OffsetAt(buffer, n).error), read) else DecodeItems(codec, read, buffer)
  }

  // Lines 258-290, once the table was read.
  function DecodeItems(codec: Codec, c: Capsule, buffer: seq<byte>): (Result<seq<byte>>, Capsule)
    requires |c.itemOffsets| == c.driverCount + c.payloadCount
  {
    var (offsets, nd, n) := (c.itemOffsets, c.driverCount, |c.itemOffsets|);
    var last := ImageCount(codec, buffer, offsets, nd);
    var headers := ImagesAt(codec, buffer, offsets, nd, last);
    var filled := c.(drivers := ItemsAt(buffer, offsets, nd), payloads := PayloadsOf(headers), imageHeaders := headers);
    if last < n then (ImageAt(codec, buffer, offsets, last).0, filled)
    else (Ok(Slice(buffer, CAPSULE_STRUCT_SIZE + n * ITEM_OFFSET_SIZE, |buffer|)), filled.(valid := true))
  }
}
