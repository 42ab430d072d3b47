/** The A/B metadata record of Application/UefiAvb/libavb_ab/avb_ab_flow.{h,c}: its 32-byte
    form with a big-endian CRC-32, and the checks made when it is read back. */
module AbData {
  import opened Bytes
  import opened ByteOrder
  import opened Crc32

  type u8 = x: int | 0 <= x < 256

  const AB_MAGIC: seq<byte> := [0x00, 0x41, 0x42, 0x30]
  const MAJOR_VERSION: u8 := 1
  const MINOR_VERSION: u8 := 0
  const MAX_PRIORITY: u8 := 15
  const MAX_TRIES: u8 := 7
  const DATA_SIZE := 32
  const PAYLOAD_SIZE := 28

  datatype Slot = Slot(priority: u8, tries: u8, successful: u8, reserved: u8)

  // The in-memory struct; crc32 is the field in host byte order.
  datatype Metadata = Metadata(
    magic: seq<byte>, major: u8, minor: u8, reserved1: seq<byte>,
    slots: seq<Slot>, reserved2: seq<byte>, crc32: bv32)
  {
    // The field sizes of the C struct.
    predicate Shaped() {
      |magic| == 4 && |reserved1| == 2 && |slots| == 2 && |reserved2| == 12
    }
  }

  // avb_ab_data_init: everything zero but the magic, the version and the slots.
  function InitialMetadata(): (d: Metadata)
    ensures d.Shaped()
  {
    Metadata(AB_MAGIC, MAJOR_VERSION, MINOR_VERSION, [0, 0],
             [Slot(MAX_PRIORITY, MAX_TRIES, 0, 0), Slot(MAX_PRIORITY - 1, MAX_TRIES, 0, 0)],
             [0, 0, 0, 0, 0, 0, 0, 0, 0, 0, 0, 0], 0)
  }

  // ----- serialised form

  function SlotBytes(s: Slot): (r: seq<byte>)
    ensures |r| == 4
  {
    [s.priority as byte, s.tries as byte, s.successful as byte, s.reserved as byte]
  }

  function SlotOf(r: seq<byte>): Slot
    requires |r| == 4
  {
    Slot(r[0] as int, r[1] as int, r[2] as int, r[3] as int)
  }

  // The 28 bytes that the check value covers.
  function Payload(d: Metadata): (r: seq<byte>)
    requires d.Shaped()
    ensures |r| == PAYLOAD_SIZE
  {
    d.magic + [d.major as byte, d.minor as byte] + d.reserved1
      + SlotBytes(d.slots[0]) + SlotBytes(d.slots[1]) + d.reserved2
  }

  function Parse(r: seq<byte>): (d: Metadata)
    requires |r| == DATA_SIZE
    ensures d.Shaped()
  {
    Metadata(r[..4], r[4] as int, r[5] as int, r[6..8], [SlotOf(r[8..12]), SlotOf(r[12..16])],
             r[16..28], FromBeWord(r[28..32]))
  }

  function CheckOf(d: Metadata): bv32
    requires d.Shaped()
  {
    CheckValue(0, Payload(d))
  }

  // What avb_ab_data_update_crc_and_byteswap leaves on disk.
  function Record(d: Metadata): (r: seq<byte>)
    requires d.Shaped()
    ensures |r| == DATA_SIZE
  {
    Payload(d) + BeWord(CheckOf(d))
  }

  // What avb_ab_data_verify_and_byteswap accepts.
  predicate Accepted(r: seq<byte>)
    requires |r| == DATA_SIZE
  {
    && r[..4] == AB_MAGIC
    && r[4] as int <= MAJOR_VERSION
    && FromBeWord(r[28..32]) == CheckValue(0, r[..PAYLOAD_SIZE])
  }

  lemma SlotRoundTrip(s: Slot)
    ensures SlotOf(SlotBytes(s)) == s
  {
    ByteRoundTrip(s.priority);
    ByteRoundTrip(s.tries);
    ByteRoundTrip(s.successful);
    ByteRoundTrip(s.reserved);
  }

  lemma RecordParts(d: Metadata)
    requires d.Shaped()
    ensures var r := Record(d);
            && r[..4] == d.magic && r[4] == d.major as byte && r[5] == d.minor as byte
            && r[6..8] == d.reserved1 && r[8..12] == SlotBytes(d.slots[0])
            && r[12..16] == SlotBytes(d.slots[1]) && r[16..28] == d.reserved2
            && r[..28] == Payload(d) && r[28..32] == BeWord(CheckValue(0, Payload(d)))
  {
  }

  // Writing and reading back gives the same metadata with a fresh check value.
  lemma RecordRoundTrip(d: Metadata)
    requires d.Shaped()
    ensures Parse(Record(d)) == d.(crc32 := CheckOf(d))
    ensures Accepted(Record(d)) <==> d.magic == AB_MAGIC && d.major <= MAJOR_VERSION
  {
    RecordParts(d);
    BeWordInverse(CheckValue(0, Payload(d)));
    ByteRoundTrip(d.major);
    ByteRoundTrip(d.minor);
    SlotRoundTrip(d.slots[0]);
    SlotRoundTrip(d.slots[1]);
    assert d.slots == [d.slots[0], d.slots[1]];
  }

  // Where each field stands in the 32 bytes, each slot in four of them, and the check value with
  // its highest byte first.
  lemma RecordLayout(d: Metadata)
    requires d.Shaped()
    ensures var (r, a, b, c) := (Record(d), d.slots[0], d.slots[1], CheckValue(0, Record(d)[..28]));
            && r[0..4] == d.magic && r[4] as int == d.major && r[5] as int == d.minor && r[6..8] == d.reserved1
            && r[8] as int == a.priority && r[9] as int == a.tries && r[10] as int == a.successful && r[11] as int == a.reserved
            && r[12] as int == b.priority && r[13] as int == b.tries && r[14] as int == b.successful && r[15] as int == b.reserved
            && r[16..28] == d.reserved2
            && r[28] == (c >> 24) as byte && r[29] == ((c >> 16) & 0xFF) as byte
            && r[30] == ((c >> 8) & 0xFF) as byte && r[31] == (c & 0xFF) as byte
  {
    RecordParts(d);
    SlotLayout(Record(d), 8, d.slots[0]);
    SlotLayout(Record(d), 12, d.slots[1]);
    ByteRoundTrip(d.major);
    ByteRoundTrip(d.minor);
    CheckLayout(Record(d), CheckValue(0, Payload(d)));
  }

  lemma SlotLayout(r: seq<byte>, o: nat, s: Slot)
    requires o + 4 <= |r| && r[o..o + 4] == SlotBytes(s)
    ensures r[o] as int == s.priority && r[o + 1] as int == s.tries
    ensures r[o + 2] as int == s.successful && r[o + 3] as int == s.reserved
  {
    var q := r[o..o + 4];
    assert q[0] == r[o] && q[1] == r[o + 1] && q[2] == r[o + 2] && q[3] == r[o + 3];
    ByteRoundTrip(s.priority);
    ByteRoundTrip(s.tries);
    ByteRoundTrip(s.successful);
    ByteRoundTrip(s.reserved);
  }

  lemma CheckLayout(r: seq<byte>, c: bv32)
    requires |r| == DATA_SIZE && r[28..32] == BeWord(c)
    ensures r[28] == (c >> 24) as byte && r[29] == ((c >> 16) & 0xFF) as byte
    ensures r[30] == ((c >> 8) & 0xFF) as byte && r[31] == (c & 0xFF) as byte
  {
    var q := r[28..32];
    assert q[0] == r[28] && q[1] == r[29] && q[2] == r[30] && q[3] == r[31];
  }

  // What a reset writes: magic and version 1.0, slot 0 ahead of slot 1, seven tries each.
  lemma FreshRecord()
    ensures var r := Record(InitialMetadata());
            && r[0..4] == [0x00, 0x41, 0x42, 0x30] && r[4] as int == 1 && r[5] as int == 0 && r[6..8] == [0, 0]
            && r[8] as int == 15 && r[9] as int == 7 && r[10] as int == 0 && r[11] as int == 0
            && r[12] as int == 14 && r[13] as int == 7 && r[14] as int == 0 && r[15] as int == 0
            && forall i :: 16 <= i < 28 ==> r[i] == 0
  {
    var (d, r) := (InitialMetadata(), Record(InitialMetadata()));
    RecordLayout(d);
    forall i | 16 <= i < 28 ensures r[i] == 0 {
      assert r[i] == r[16..28][i - 16];
    }
  }

  // Every accepted record is the one that its metadata is written as.
  lemma AcceptedIsRecord(r: seq<byte>)
    requires |r| == DATA_SIZE && Accepted(r)
    ensures Record(Parse(r)) == r
  {
    PayloadBack(r);
    CheckBack(r, Payload(Parse(r)));
  }

  lemma CheckBack(r: seq<byte>, payload: seq<byte>)
    requires |r| == DATA_SIZE && Accepted(r) && payload == r[..28]
    ensures payload + BeWord(CheckValue(0, payload)) == r
  {
    var w := CheckValue(0, payload);
    WordBack(r[28..32], w);
    assert r == r[..28] + r[28..32];
  }

  lemma PayloadBack(r: seq<byte>)
    requires |r| == DATA_SIZE
    ensures Payload(Parse(r)) == r[..28]
  {
    SlotBack(r[8..12]);
    SlotBack(r[12..16]);
    ByteOfInt(r[4]);
    ByteOfInt(r[5]);
    assert r[..28] == r[..4] + [r[4], r[5]] + r[6..8] + r[8..12] + r[12..16] + r[16..28];
  }

  lemma SlotBack(q: seq<byte>)
    requires |q| == 4
    ensures SlotBytes(SlotOf(q)) == q
  {
    ByteOfInt(q[0]);
    ByteOfInt(q[1]);
    ByteOfInt(q[2]);
    ByteOfInt(q[3]);
  }

  lemma WordBack(q: seq<byte>, w: bv32)
    requires |q| == 4 && FromBeWord(q) == w
    ensures BeWord(w) == q
  {
    assert q == [q[0], q[1], q[2], q[3]];
    BytesOfWord(q[0], q[1], q[2], q[3]);
  }

  lemma BytesOfWord(a: byte, b: byte, c: byte, d: byte)
    ensures BeWord(FromBeWord([a, b, c, d])) == [a, b, c, d]
  {
  }

  // Changing any one byte of an accepted record makes it unacceptable.
  lemma TamperedByteRejected(r: seq<byte>, i: nat, b: byte)
    requires |r| == DATA_SIZE && i < DATA_SIZE && Accepted(r) && r[i] != b
    ensures !Accepted(r[i := b])
  {
    var t := r[i := b];
    if i < PAYLOAD_SIZE {
      var (front, back) := (r[..i], r[i + 1..PAYLOAD_SIZE]);
      assert r[..PAYLOAD_SIZE] == front + [r[i]] + back;
      assert t[..PAYLOAD_SIZE] == front + [b] + back;
      assert t[28..32] == r[28..32];
      SingleByteDetected(0, front, r[i], b, back);
    } else {
      assert t[..PAYLOAD_SIZE] == r[..PAYLOAD_SIZE];
      assert r[28..32] == [r[28], r[29], r[30], r[31]];
      assert t[28..32] == [t[28], t[29], t[30], t[31]];
      if FromBeWord(t[28..32]) == FromBeWord(r[28..32]) {
        FromBeWordDiffers(r[28], r[29], r[30], r[31], t[28], t[29], t[30], t[31]);
      }
    }
  }

  // ----- the two conversions of the source

  // avb_ab_data_update_crc_and_byteswap
  method UpdateCrcAndByteswap(src: Metadata, dest: array<byte>)
    requires src.Shaped() && dest.Length == DATA_SIZE
    modifies dest
    ensures dest[..] == Record(src)
  {
    var p := Payload(src);
    var i := 0;
    while i < PAYLOAD_SIZE
      invariant 0 <= i <= PAYLOAD_SIZE
      invariant dest[..i] == p[..i]
    {
      dest[i] := p[i];
      i := i + 1;
    }
    assert dest[..PAYLOAD_SIZE] == p;
    var crc := AvbCrc32(dest, PAYLOAD_SIZE);
    var w := BeWord(crc);
    dest[28], dest[29], dest[30], dest[31] := w[0], w[1], w[2], w[3];
    assert dest[..] == dest[..PAYLOAD_SIZE] + w;
  }

  // avb_ab_data_verify_and_byteswap; the parsed struct is meant for use only when ok is true.
  method VerifyAndByteswap(src: array<byte>) returns (ok: bool, dest: Metadata)
    requires src.Length == DATA_SIZE
    ensures ok <==> Accepted(src[..])
    ensures dest == Parse(src[..])
  {
    dest := Parse(src[..]);
    var magic := new byte[4];
    magic[0], magic[1], magic[2], magic[3] := AB_MAGIC[0], AB_MAGIC[1], AB_MAGIC[2], AB_MAGIC[3];
    var r := SafeMemcmp(src, 0, magic, 0, 4);
    assert magic[0..4] == AB_MAGIC && src[0..4] == src[..][..4];
    if r != 0 {
      return false, dest;
    }
    if dest.major > MAJOR_VERSION {
      return false, dest;
    }
    var crc := AvbCrc32(src, PAYLOAD_SIZE);
    assert src[..PAYLOAD_SIZE] == src[..][..PAYLOAD_SIZE];
    return dest.crc32 == crc, dest;
  }
}
