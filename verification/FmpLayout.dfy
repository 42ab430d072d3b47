/** Where everything stands in the bytes that the classes of Tools/Python/GenCapsule/Uefi/Capsule
    encode, with the positions of section 23.3 of the UEFI Specification 2.10. */
module FmpLayout {
  import opened Bytes
  import opened ByteOrder
  import opened FmpAuth
  import opened FmpCapsuleSpec
  import opened FmpImage
  import opened FmpRoundTrip
  import opened PyStruct

  // ----- one image

  // The forty bytes of the header of payload i, what they announce, and what follows them.
  ghost predicate ImageLaid(s: seq<byte>, p: Payload, i: nat) {
    && |s| == 40 + |p.data| + |p.vendorCode|
    && LeVal(s[0..4]) == 2 && s[4..20] == p.typeId && LeVal(s[20..21]) == i + 1 && s[21..24] == [0, 0, 0]
    && LeVal(s[24..28]) == |p.data| && LeVal(s[28..32]) == |p.vendorCode| && LeVal(s[32..40]) == p.hardwareInstance
    && s[40..40 + |p.data|] == p.data && s[40 + |p.data|..] == p.vendorCode
  }

  lemma ImageLayout(p: Payload, i: nat)
    requires EncodeImage(HeaderFor(p, i)).0.Ok?
    ensures ImageLaid(EncodeImage(HeaderFor(p, i)).0.value, p, i)
  {
    var h := HeaderFor(p, i);
    var (s, body) := (PackedHeader(h), h.payload + h.vendorCode);
    assert EncodeImage(h).0.value == s + body;
    HeaderFields(h);
    PackedValue(h.version, 4);
    PackedValue(h.index, 1);
    PackedValue(|h.payload|, 4);
    PackedValue(|h.vendorCode|, 4);
    PackedValue(h.hardwareInstance, 8);
    ReservedBytes(h);
    FrontSlices(s, body, EncodeImage(h).0.value);
    assert (s + body)[40..40 + |h.payload|] == h.payload && (s + body)[40 + |h.payload|..] == h.vendorCode;
  }

  lemma ReservedBytes(h: ImageHeader)
    ensures PackedHeader(h)[21..24] == [0, 0, 0]
  {
  }

  lemma FrontSlices(s: seq<byte>, body: seq<byte>, t: seq<byte>)
    requires |s| == 40 && t == s + body
    ensures t[0..4] == s[0..4] && t[4..20] == s[4..20] && t[20..21] == s[20..21] && t[21..24] == s[21..24]
    ensures t[24..28] == s[24..28] && t[28..32] == s[28..32] && t[32..40] == s[32..40]
  {
  }

  // ----- the capsule

  // Where the k-th item starts, as the table says.
  function TableValue(buffer: seq<byte>, k: nat): nat
    requires 16 + 8 * k <= |buffer|
  {
    LeVal(buffer[8 + 8 * k..16 + 8 * k])
  }

  // Version and counts come first; the table of offsets follows, and the items follow each other
  // behind it, drivers before images, up to the end.
  lemma CapsuleLayout(c: Capsule, k: nat)
    requires EncodeCapsule(ImageCodec(), c).0.Ok? && Fresh(c) && k < |c.drivers| + |c.payloads|
    ensures var (buffer, n) := (EncodeCapsule(ImageCodec(), c).0.value, |c.drivers| + |c.payloads|);
            && |buffer| >= 8 + 8 * n
            && LeVal(buffer[0..4]) == c.version && LeVal(buffer[4..6]) == |c.drivers| && LeVal(buffer[6..8]) == |c.payloads|
            && TableValue(buffer, 0) == 8 + 8 * n
            && var (from, to) := (TableValue(buffer, k), if k + 1 < n then TableValue(buffer, k + 1) else |buffer|);
               from <= to <= |buffer|
               && if k < |c.drivers| then buffer[from..to] == c.drivers[k]
                  else ImageLaid(buffer[from..to], c.payloads[k - |c.drivers|], k - |c.drivers|)
  {
    var buffer := EncodeCapsule(ImageCodec(), c).0.value;
    var (head, items, offsets) := (CapsuleHead(c), ItemsOf(ImageCodec(), c), EncodeCapsule(ImageCodec(), c).1.itemOffsets);
    EncodedLayout(ImageCodec(), c);
    EncodedKeeps(ImageCodec(), c);
    HeadFields(c);
    HeadOfBuffer(buffer, head, items, offsets);
    ItemLaid(buffer, head, items, offsets, k);
    ItemLaid(buffer, head, items, offsets, 0);
    ItemIs(c, k);
  }

  lemma ItemLaid(buffer: seq<byte>, head: seq<byte>, items: seq<seq<byte>>, offsets: seq<nat>, k: nat)
    requires Laid(buffer, head, items, offsets) && k < |items|
    ensures |buffer| >= 8 + 8 * |items|
    ensures k == 0 ==> TableValue(buffer, k) == 8 + 8 * |items|
    ensures var (from, to) := (TableValue(buffer, k), if k + 1 < |items| then TableValue(buffer, k + 1) else |buffer|);
            from <= to <= |buffer| && buffer[from..to] == items[k]
  {
    var n := |items|;
    AssembledLength(head, offsets, items);
    EntryLaid(buffer, head, items, offsets, k);
    if k + 1 < n {
      EntryLaid(buffer, head, items, offsets, k + 1);
    }
    JoinedAt(items, n, k);
    SliceOfEnd(head + PackedOffsets(offsets, n), Joined(items, n), Length(items, k), Length(items, k + 1));
  }

  lemma EntryLaid(buffer: seq<byte>, head: seq<byte>, items: seq<seq<byte>>, offsets: seq<nat>, k: nat)
    requires Laid(buffer, head, items, offsets) && k < |items|
    ensures |buffer| >= 8 + 8 * |items|
    ensures TableValue(buffer, k) == 8 + 8 * |items| + Length(items, k)
  {
    AssembledLength(head, offsets, items);
    OffsetOfItem(8 + |items| * 8, items, |items|, k);
    EntryPacked(buffer, head, PackedOffsets(offsets, |offsets|), Joined(items, |items|), offsets, k);
    PackedValue(offsets[k], 8);
  }

  lemma EntryPacked(buffer: seq<byte>, head: seq<byte>, table: seq<byte>, data: seq<byte>, offsets: seq<nat>, k: nat)
    requires |head| == 8 && k < |offsets| && table == PackedOffsets(offsets, |offsets|) && buffer == head + table + data
    ensures 16 + 8 * k <= |buffer| && buffer[8 + 8 * k..16 + 8 * k] == LeBytes(offsets[k], 8)
  {
    var (i, j) := (8 * k, 8 * k + 8);
    PackedAt(offsets, |offsets|, k);
    assert k * ITEM_OFFSET_SIZE == i && (k + 1) * ITEM_OFFSET_SIZE == j;
    SliceOfMiddle(head, table, data, i, j);
  }

  lemma ItemIs(c: Capsule, k: nat)
    requires EncodedCount(ImageCodec(), c.payloads, 0) == |c.payloads| && k < |c.drivers| + |c.payloads|
    ensures var item := ItemsOf(ImageCodec(), c)[k];
            if k < |c.drivers| then item == c.drivers[k] else ImageLaid(item, c.payloads[k - |c.drivers|], k - |c.drivers|)
  {
    if k >= |c.drivers| {
      var i := k - |c.drivers|;
      assert ImageCodec().encode(c.payloads[i], i).0.Ok?;
      ImageLayout(c.payloads[i], i);
    }
  }

  // ----- the authentication header

  // The count, the length of the certificate with its header, revision 2.0, type 0x0EF1 and the kind of
  // certificate; then the certificate and the payload.
  lemma AuthLayout(h: AuthHeader)
    requires EncodeAuth(h).0.Ok?
    ensures var s := EncodeAuth(h).0.value;
            && |s| == 32 + |h.certData| + |h.payload|
            && LeVal(s[0..8]) == h.monotonicCount && LeVal(s[8..12]) == 24 + |h.certData|
            && LeVal(s[12..14]) == 0x0200 && LeVal(s[14..16]) == 0x0EF1
            && s[16..32] == [0x14, 0x74, 0x71, 0xa7, 0x16, 0xc6, 0x77, 0x49, 0x94, 0x20, 0x84, 0x47, 0x12, 0xa7, 0x35, 0xbf]
            && s[32..32 + |h.certData|] == h.certData && s[32 + |h.certData|..] == h.payload
  {
    var sized := h.(length := AUTH_INFO_SIZE + |h.certData|);
    var (s, body) := (PackedAuth(sized), h.certData + h.payload);
    assert EncodeAuth(h).0.value == s + body;
    AuthFields(sized);
    AuthSlices(s, body, s + body);
    PackedValue(sized.monotonicCount, 8);
    PackedValue(sized.length, 4);
    PackedValue(sized.revision, 2);
    PackedValue(sized.certificateType, 2);
    assert (s + body)[32..32 + |h.certData|] == h.certData && (s + body)[32 + |h.certData|..] == h.payload;
  }

  lemma AuthSlices(s: seq<byte>, body: seq<byte>, t: seq<byte>)
    requires |s| == 32 && t == s + body
    ensures t[0..8] == s[0..8] && t[8..12] == s[8..12] && t[12..14] == s[12..14] && t[14..16] == s[14..16] && t[16..32] == s[16..32]
  {
  }
}
