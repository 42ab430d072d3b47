/** Decode after Encode for capsules, and for a signed payload inside a capsule. */
module FmpRoundTrip {
  import opened Bytes
  import opened ByteOrder
  import opened FmpAuth
  import opened FmpCapsuleSpec
  import opened FmpImage
  import opened PyStruct

  // ----- where things stand in an encoded capsule

  lemma {:induction false} LengthMonotone(items: seq<seq<byte>>, i: nat, j: nat)
    requires i <= j <= |items|
    ensures Length(items, i) <= Length(items, j)
  {
    if i < j {
      LengthMonotone(items, i, j - 1);
    }
  }

  lemma {:induction false} JoinedAt(items: seq<seq<byte>>, n: nat, k: nat)
    requires k < n <= |items|
    ensures Length(items, k) <= Length(items, k + 1) <= Length(items, n)
    ensures Joined(items, n)[Length(items, k)..Length(items, k + 1)] == items[k]
  {
    LengthMonotone(items, k + 1, n);
    if k + 1 < n {
      JoinedAt(items, n - 1, k);
      LengthMonotone(items, k + 1, n - 1);
      SliceOfFront(Joined(items, n - 1), items[n - 1], Length(items, k), Length(items, k + 1));
    } else {
      SliceOfEnd(Joined(items, k), items[k], 0, |items[k]|);
      assert items[k][0..|items[k]|] == items[k];
    }
  }

  lemma {:induction false} PackedAt(offsets: seq<nat>, n: nat, k: nat)
    requires k < n <= |offsets|
    ensures PackedOffsets(offsets, n)[k * ITEM_OFFSET_SIZE..(k + 1) * ITEM_OFFSET_SIZE] == LeBytes(offsets[k], 8)
  {
    if k + 1 < n {
      PackedAt(offsets, n - 1, k);
      SliceOfFront(PackedOffsets(offsets, n - 1), LeBytes(offsets[n - 1], 8), k * ITEM_OFFSET_SIZE, (k + 1) * ITEM_OFFSET_SIZE);
    }
  }

  lemma SliceOfMiddle(a: seq<byte>, b: seq<byte>, c: seq<byte>, i: nat, j: nat)
    requires i <= j <= |b|
    ensures (a + b + c)[|a| + i..|a| + j] == b[i..j]
  {
  }

  lemma SliceOfEnd(a: seq<byte>, b: seq<byte>, i: nat, j: nat)
    requires i <= j <= |b|
    ensures (a + b)[|a| + i..|a| + j] == b[i..j]
  {
  }

  // A buffer made of eight bytes, a table and the items that the table points at.
  ghost predicate Laid(buffer: seq<byte>, head: seq<byte>, items: seq<seq<byte>>, offsets: seq<nat>) {
    && |head| == CAPSULE_STRUCT_SIZE && |offsets| == |items|
    && buffer == Assembled(head, offsets, items)
    && offsets == Offsets(CAPSULE_STRUCT_SIZE + |items| * ITEM_OFFSET_SIZE, items, |items|)
    && OffsetsPackable(offsets)
  }

  lemma TableEntry(buffer: seq<byte>, head: seq<byte>, items: seq<seq<byte>>, offsets: seq<nat>, k: nat)
    requires Laid(buffer, head, items, offsets) && k < |items|
    ensures OffsetAt(buffer, k) == if offsets[k] < |buffer| then Ok(offsets[k]) else Raised(ValueError)
  {
    var table := PackedOffsets(offsets, |offsets|);
    var lo := CAPSULE_STRUCT_SIZE + k * ITEM_OFFSET_SIZE;
    PackedAt(offsets, |offsets|, k);
    SliceOfMiddle(head, table, Joined(items, |items|), k * ITEM_OFFSET_SIZE, (k + 1) * ITEM_OFFSET_SIZE);
    assert buffer[lo..lo + ITEM_OFFSET_SIZE] == LeBytes(offsets[k], 8);
    PackedValue(offsets[k], 8);
  }

  lemma ItemFound(buffer: seq<byte>, head: seq<byte>, items: seq<seq<byte>>, offsets: seq<nat>, k: nat)
    requires Laid(buffer, head, items, offsets) && k < |items|
    ensures ItemAt(buffer, offsets, k) == items[k]
  {
    var (front, data) := (head + PackedOffsets(offsets, |offsets|), Joined(items, |items|));
    JoinedAt(items, |items|, k);
    OffsetOfItem(|front|, items, |items|, k);
    if k + 1 < |items| {
      OffsetOfItem(|front|, items, |items|, k + 1);
    }
    SliceOfEnd(front, data, Length(items, k), Length(items, k + 1));
  }

  // The whole table is accepted exactly when the last item has a first byte to point at.
  lemma TableRead(buffer: seq<byte>, head: seq<byte>, items: seq<seq<byte>>, offsets: seq<nat>)
    requires Laid(buffer, head, items, offsets)
    ensures OffsetCount(buffer, 0, |items|) == |items| <==> items == [] || items[|items| - 1] != []
    ensures OffsetCount(buffer, 0, |items|) == |items| ==> ReadOffsets(buffer, |items|) == offsets
  {
    var n := |items|;
    forall k | 0 <= k < n
      ensures OffsetAt(buffer, k).Ok? <==> offsets[k] < |buffer|
      ensures OffsetAt(buffer, k).Ok? ==> OffsetAt(buffer, k).value == offsets[k]
    {
      TableEntry(buffer, head, items, offsets, k);
    }
    if n > 0 {
      var start := CAPSULE_STRUCT_SIZE + n * ITEM_OFFSET_SIZE;
      OffsetOfItem(start, items, n, n - 1);
      forall k | 0 <= k < n ensures offsets[k] <= offsets[n - 1] {
        LengthMonotone(items, k, n - 1);
        OffsetOfItem(start, items, n, k);
      }
      if OffsetCount(buffer, 0, n) == n {
        assert OffsetAt(buffer, n - 1).Ok?;
      }
    }
  }

  // ----- one capsule

  lemma HeadFields(c: Capsule)
    requires c.version < U32 && |c.drivers| < U16 && |c.payloads| < U16
    ensures var head := CapsuleHead(c);
            && |head| == CAPSULE_STRUCT_SIZE && LeVal(head[0..4]) == c.version
            && LeVal(head[4..6]) == |c.drivers| && LeVal(head[6..8]) == |c.payloads|
  {
    var head := CapsuleHead(c);
    assert head[0..4] == LeBytes(c.version, 4) && head[4..6] == LeBytes(|c.drivers|, 2) && head[6..8] == LeBytes(|c.payloads|, 2);
    PackedValue(c.version, 4);
    PackedValue(|c.drivers|, 2);
    PackedValue(|c.payloads|, 2);
  }

  // Nothing was encoded or decoded with this object before.
  predicate Fresh(c: Capsule) { c.itemOffsets == [] && c.imageHeaders == [] }

  // What is encoded is decoded again.
  ghost predicate Invertible(codec: Codec) {
    forall p: Payload, i: nat {:trigger codec.encode(p, i)} :: codec.encode(p, i).0.Ok? ==>
      && codec.encode(p, i).0.value != []
      && codec.decode(codec.encode(p, i).0.value).0.Ok?
      && codec.decode(codec.encode(p, i).0.value).1 == codec.encode(p, i).1
  }

  function ItemsOf(codec: Codec, c: Capsule): (r: seq<seq<byte>>)
    ensures |r| == |c.drivers| + |c.payloads|
  {
    c.drivers + Images(codec, c.payloads, |c.payloads|)
  }

  lemma EncodedLayout(codec: Codec, c: Capsule)
    requires EncodeCapsule(codec, c).0.Ok? && Fresh(c)
    ensures Laid(EncodeCapsule(codec, c).0.value, CapsuleHead(c), ItemsOf(codec, c), EncodeCapsule(codec, c).1.itemOffsets)
    ensures EncodedCount(codec, c.payloads, 0) == |c.payloads|
    ensures EncodeCapsule(codec, c).1.imageHeaders == Headers(codec, c.payloads, |c.payloads|)
  {
    EncodedParts(codec, c);
    var (buffer, filled) := (EncodeCapsule(codec, c).0.value, EncodeCapsule(codec, c).1);
    LaidWhenFresh(buffer, CapsuleHead(c), ItemsOf(codec, c), filled.itemOffsets, c.itemOffsets);
    EmptyPlus(c.imageHeaders, Headers(codec, c.payloads, |c.payloads|));
  }

  lemma EncodedParts(codec: Codec, c: Capsule)
    requires EncodeCapsule(codec, c).0.Ok?
    ensures EncodedCount(codec, c.payloads, 0) == |c.payloads|
    ensures var (items, filled) := (ItemsOf(codec, c), EncodeCapsule(codec, c).1);
            && filled.itemOffsets == c.itemOffsets + Offsets(DataStart(c), items, |items|)
            && filled.imageHeaders == c.imageHeaders + Headers(codec, c.payloads, |c.payloads|)
            && OffsetsPackable(filled.itemOffsets)
            && EncodeCapsule(codec, c).0.value == Assembled(CapsuleHead(c), filled.itemOffsets, items)
  {
  }

  lemma LaidWhenFresh(buffer: seq<byte>, head: seq<byte>, items: seq<seq<byte>>, offsets: seq<nat>, before: seq<nat>)
    requires |head| == CAPSULE_STRUCT_SIZE && before == []
    requires offsets == before + Offsets(CAPSULE_STRUCT_SIZE + |items| * ITEM_OFFSET_SIZE, items, |items|)
    requires OffsetsPackable(offsets) && buffer == Assembled(head, offsets, items)
    ensures Laid(buffer, head, items, offsets)
  {
    EmptyPlus(before, Offsets(CAPSULE_STRUCT_SIZE + |items| * ITEM_OFFSET_SIZE, items, |items|));
  }

  lemma EmptyPlus<T>(e: seq<T>, s: seq<T>)
    requires e == []
    ensures e + s == s
  {
  }

  // An image comes back as the header that Encode built for it.
  lemma ImageRead(codec: Codec, c: Capsule, buffer: seq<byte>, head: seq<byte>, offsets: seq<nat>, i: nat)
    requires Invertible(codec) && EncodedCount(codec, c.payloads, 0) == |c.payloads|
    requires Laid(buffer, head, ItemsOf(codec, c), offsets) && i < |c.payloads|
    ensures |c.drivers| + i < |offsets|
    ensures var image := ImageAt(codec, buffer, offsets, |c.drivers| + i);
            image.0.Ok? && image.1 == EncodedHeader(codec, c.payloads[i], i)
  {
    ItemFound(buffer, head, ItemsOf(codec, c), offsets, |c.drivers| + i);
    assert ItemsOf(codec, c)[|c.drivers| + i] == ImageBytes(codec, c.payloads[i], i);
    assert codec.encode(c.payloads[i], i).0.Ok?;
  }

  lemma ImagesRead(codec: Codec, c: Capsule, buffer: seq<byte>, head: seq<byte>, offsets: seq<nat>)
    requires Invertible(codec) && EncodedCount(codec, c.payloads, 0) == |c.payloads|
    requires Laid(buffer, head, ItemsOf(codec, c), offsets)
    ensures ImageCount(codec, buffer, offsets, |c.drivers|) == |offsets|
    ensures ImagesAt(codec, buffer, offsets, |c.drivers|, |offsets|) == Headers(codec, c.payloads, |c.payloads|)
  {
    forall i | 0 <= i < |c.payloads| ensures ReadsAs(codec, c, buffer, offsets, i) {
      ImageRead(codec, c, buffer, head, offsets, i);
    }
    ImagesCounted(codec, c, buffer, offsets);
  }

  predicate ReadsAs(codec: Codec, c: Capsule, buffer: seq<byte>, offsets: seq<nat>, i: nat)
    requires i < |c.payloads| && |offsets| == |c.drivers| + |c.payloads|
  {
    var image := ImageAt(codec, buffer, offsets, |c.drivers| + i);
    image.0.Ok? && image.1 == EncodedHeader(codec, c.payloads[i], i)
  }

  lemma ImagesCounted(codec: Codec, c: Capsule, buffer: seq<byte>, offsets: seq<nat>)
    requires |offsets| == |c.drivers| + |c.payloads|
    requires forall i :: 0 <= i < |c.payloads| ==> ReadsAs(codec, c, buffer, offsets, i)
    ensures ImageCount(codec, buffer, offsets, |c.drivers|) == |offsets|
    ensures ImagesAt(codec, buffer, offsets, |c.drivers|, |offsets|) == Headers(codec, c.payloads, |c.payloads|)
  {
    var (nd, n) := (|c.drivers|, |c.payloads|);
    forall k | nd <= k < |offsets| ensures ImageAt(codec, buffer, offsets, k).0.Ok? {
      assert ReadsAs(codec, c, buffer, offsets, k - nd);
    }
    var (read, built) := (ImagesAt(codec, buffer, offsets, nd, |offsets|), Headers(codec, c.payloads, n));
    forall i | 0 <= i < n ensures read[i] == built[i] {
      assert ReadsAs(codec, c, buffer, offsets, i);
    }
  }

  lemma DriversRead(codec: Codec, c: Capsule, buffer: seq<byte>, head: seq<byte>, offsets: seq<nat>)
    requires Laid(buffer, head, ItemsOf(codec, c), offsets)
    ensures ItemsAt(buffer, offsets, |c.drivers|) == c.drivers
  {
    forall k | 0 <= k < |c.drivers| ensures ItemAt(buffer, offsets, k) == c.drivers[k] {
      ItemFound(buffer, head, ItemsOf(codec, c), offsets, k);
    }
  }

  // The table can be read unless there is no image and the last driver is empty.
  predicate EndsWithBytes(c: Capsule) {
    c.payloads != [] || c.drivers == [] || c.drivers[|c.drivers| - 1] != []
  }

  lemma LastItem(codec: Codec, c: Capsule)
    requires Invertible(codec) && EncodedCount(codec, c.payloads, 0) == |c.payloads|
    ensures var items := ItemsOf(codec, c); (items == [] || items[|items| - 1] != []) <==> EndsWithBytes(c)
  {
    var n := |c.payloads|;
    if n > 0 {
      assert codec.encode(c.payloads[n - 1], n - 1).0.Ok?;
      assert ItemsOf(codec, c)[|c.drivers| + n - 1] == ImageBytes(codec, c.payloads[n - 1], n - 1);
    } else {
      assert ItemsOf(codec, c) == c.drivers;
    }
  }

  lemma HeadOfBuffer(buffer: seq<byte>, head: seq<byte>, items: seq<seq<byte>>, offsets: seq<nat>)
    requires Laid(buffer, head, items, offsets)
    ensures |buffer| >= CAPSULE_STRUCT_SIZE
    ensures buffer[0..4] == head[0..4] && buffer[4..6] == head[4..6] && buffer[6..8] == head[6..8]
  {
    var rest := PackedOffsets(offsets, |offsets|) + Joined(items, |items|);
    assert buffer == head + rest;
    SliceOfFront(head, rest, 0, 4);
    SliceOfFront(head, rest, 4, 6);
    SliceOfFront(head, rest, 6, 8);
  }

  // The outcome of decoding, put together from its parts.
  function DecodedFrom(version: nat, nd: nat, np: nat, offsets: seq<nat>, drivers: seq<seq<byte>>, headers: seq<ImageHeader>): Capsule {
    Capsule(true, version, nd, np, offsets, drivers, PayloadsOf(headers), headers)
  }

  lemma DecodedParts(codec: Codec, other: Capsule, buffer: seq<byte>, nd: nat, np: nat, offsets: seq<nat>)
    requires |buffer| >= CAPSULE_STRUCT_SIZE && LeVal(buffer[0..4]) >= CAPSULE_INIT_VERSION
    requires LeVal(buffer[4..6]) == nd && LeVal(buffer[6..8]) == np && |offsets| == nd + np
    requires OffsetCount(buffer, 0, nd + np) == nd + np ==> ReadOffsets(buffer, nd + np) == offsets
    requires ImageCount(codec, buffer, offsets, nd) == |offsets|
    ensures var (r, d) := DecodeCapsule(codec, other, buffer);
            && (r.Ok? <==> OffsetCount(buffer, 0, nd + np) == nd + np)
            && (r.Ok? ==> d == DecodedFrom(LeVal(buffer[0..4]), nd, np, offsets, ItemsAt(buffer, offsets, nd),
                                           ImagesAt(codec, buffer, offsets, nd, nd + np)))
  {
  }

  // With at least one payload a capsule is always decoded; without one, the last driver must
  // not be empty. Every driver and every image header comes back; the payload list loses the
  // hardware instances.
  lemma RoundTripWith(codec: Codec, c: Capsule, other: Capsule)
    requires Invertible(codec) && EncodeCapsule(codec, c).0.Ok? && Fresh(c) && c.version >= CAPSULE_INIT_VERSION
    ensures var (r, d) := DecodeCapsule(codec, other, EncodeCapsule(codec, c).0.value);
            && (r.Ok? <==> EndsWithBytes(c))
            && (r.Ok? ==> d == DecodedFrom(c.version, |c.drivers|, |c.payloads|, EncodeCapsule(codec, c).1.itemOffsets,
                                           c.drivers, Headers(codec, c.payloads, |c.payloads|)))
  {
    var buffer := EncodeCapsule(codec, c).0.value;
    var (head, items, offsets) := (CapsuleHead(c), ItemsOf(codec, c), EncodeCapsule(codec, c).1.itemOffsets);
    EncodedLayout(codec, c);
    HeadFields(c);
    HeadOfBuffer(buffer, head, items, offsets);
    TableRead(buffer, head, items, offsets);
    ImagesRead(codec, c, buffer, head, offsets);
    LastItem(codec, c);
    DriversRead(codec, c, buffer, head, offsets);
    DecodedParts(codec, other, buffer, |c.drivers|, |c.payloads|, offsets);
  }

  // Encoding appends to the list of offsets without clearing it, so the object has to be fresh:
  // the result of a second call is longer by a whole table.
  lemma SecondEncodeIsLonger(codec: Codec, c: Capsule)
    requires EncodeCapsule(codec, c).0.Ok? && Fresh(c)
    ensures var (first, again) := (EncodeCapsule(codec, c).0, EncodeCapsule(codec, EncodeCapsule(codec, c).1).0);
            again.Ok? && |again.value| == |first.value| + (|c.drivers| + |c.payloads|) * ITEM_OFFSET_SIZE
  {
    var (c1, items) := (EncodeCapsule(codec, c).1, ItemsOf(codec, c));
    EncodedParts(codec, c);
    EncodedKeeps(codec, c);
    EmptyPlus(c.itemOffsets, Offsets(DataStart(c), items, |items|));
    EncodedAgain(codec, c, c1, items);
  }

  lemma EncodedAgain(codec: Codec, c: Capsule, c1: Capsule, items: seq<seq<byte>>)
    requires c1.drivers == c.drivers && c1.payloads == c.payloads && c1.version == c.version
    requires c.version < U32 && |c.drivers| < U16 && |c.payloads| < U16
    requires EncodedCount(codec, c.payloads, 0) == |c.payloads| && items == ItemsOf(codec, c)
    requires c1.itemOffsets == Offsets(DataStart(c), items, |items|) && OffsetsPackable(c1.itemOffsets)
    ensures var (first, again) := (Assembled(CapsuleHead(c), c1.itemOffsets, items), EncodeCapsule(codec, c1).0);
            again.Ok? && |again.value| == |first| + |items| * ITEM_OFFSET_SIZE
  {
    var offsets := c1.itemOffsets + c1.itemOffsets;
    EncodesTo(codec, c1, items, offsets);
    AssembledLength(CapsuleHead(c), c1.itemOffsets, items);
    AssembledLength(CapsuleHead(c1), offsets, items);
  }

  // The object without what earlier calls left in it.
  function Cleared(c: Capsule): Capsule { c.(itemOffsets := [], imageHeaders := []) }

  // Whatever used the object before, the table of the result starts with the offsets it left, and
  // the bytes are those of a fresh object exactly if there are none.
  lemma StaleOffsetsComeFirst(codec: Codec, c: Capsule)
    requires EncodeCapsule(codec, c).0.Ok?
    ensures EncodeCapsule(codec, Cleared(c)).0.Ok?
    ensures var (r, s, n) := (EncodeCapsule(codec, c).0.value, EncodeCapsule(codec, Cleared(c)).0.value, |c.itemOffsets|);
            && |r| == |s| + n * ITEM_OFFSET_SIZE
            && r[CAPSULE_STRUCT_SIZE..CAPSULE_STRUCT_SIZE + n * ITEM_OFFSET_SIZE] == PackedOffsets(c.itemOffsets, n)
            && (r == s <==> c.itemOffsets == [])
  {
    var items := ItemsOf(codec, c);
    EncodedParts(codec, c);
    EncodedKeeps(codec, c);
    EncodesCleared(codec, c, Offsets(DataStart(c), items, |items|), items);
    StaleTable(CapsuleHead(c), c.itemOffsets, Offsets(DataStart(c), items, |items|), items,
               |c.itemOffsets| * ITEM_OFFSET_SIZE);
  }

  lemma EncodesCleared(codec: Codec, c: Capsule, now: seq<nat>, items: seq<seq<byte>>)
    requires c.version < U32 && |c.drivers| < U16 && |c.payloads| < U16
    requires EncodedCount(codec, c.payloads, 0) == |c.payloads| && items == ItemsOf(codec, c)
    requires now == Offsets(DataStart(c), items, |items|) && OffsetsPackable(c.itemOffsets + now)
    ensures EncodeCapsule(codec, Cleared(c)).0 == Ok(Assembled(CapsuleHead(c), now, items))
  {
    PackableParts(c.itemOffsets, now);
    EmptyPlus([], now);
    EncodesTo(codec, Cleared(c), items, now);
  }

  lemma PackableParts(a: seq<nat>, b: seq<nat>)
    requires OffsetsPackable(a + b)
    ensures OffsetsPackable(a) && OffsetsPackable(b)
  {
    forall k | 0 <= k < |a| ensures a[k] < U64 {
      assert (a + b)[k] == a[k];
    }
    forall k | 0 <= k < |b| ensures b[k] < U64 {
      assert (a + b)[|a| + k] == b[k];
    }
  }

  lemma StaleTable(head: seq<byte>, a: seq<nat>, b: seq<nat>, items: seq<seq<byte>>, n: nat)
    requires n == |a| * ITEM_OFFSET_SIZE
    ensures var (r, s) := (Assembled(head, a + b, items), Assembled(head, b, items));
            && |r| == |s| + n && r[|head|..|head| + n] == PackedOffsets(a, |a|)
            && (r == s <==> a == [])
  {
    var (table, short) := (PackedOffsets(a + b, |a + b|), PackedOffsets(b, |b|));
    PackedTable(a, b);
    LongerTable(Assembled(head, a + b, items), Assembled(head, b, items), head, table, short, Joined(items, |items|),
                n, PackedOffsets(a, |a|));
  }

  lemma PackedTable(a: seq<nat>, b: seq<nat>)
    ensures var (table, short, n) := (PackedOffsets(a + b, |a + b|), PackedOffsets(b, |b|), |a| * ITEM_OFFSET_SIZE);
            |table| == |short| + n && table[..n] == PackedOffsets(a, |a|) && (n == 0 ==> table == short)
  {
    PackedPrefix(a, b, |b|);
    if a == [] {
      EmptyPlus(a, b);
    }
  }

  lemma LongerTable(r: seq<byte>, s: seq<byte>, head: seq<byte>, table: seq<byte>, short: seq<byte>, data: seq<byte>, n: nat,
                    front: seq<byte>)
    requires r == head + table + data && s == head + short + data
    requires |table| == |short| + n && table[..n] == front && (n == 0 ==> table == short)
    ensures |r| == |s| + n && r[|head|..|head| + n] == front && (r == s <==> n == 0)
  {
    SliceOfMiddle(head, table, data, 0, n);
    assert table[0..n] == table[..n];
  }

  lemma {:induction false} PackedPrefix(a: seq<nat>, b: seq<nat>, n: nat)
    requires n <= |b|
    ensures PackedOffsets(a + b, |a| + n)[..|a| * ITEM_OFFSET_SIZE] == PackedOffsets(a, |a|)
  {
    if n > 0 {
      PackedPrefix(a, b, n - 1);
      assert PackedOffsets(a + b, |a| + n) == PackedOffsets(a + b, |a| + n - 1) + LeBytes((a + b)[|a| + n - 1], 8);
    } else {
      PackedFront(a, b, |a|);
    }
  }

  lemma {:induction false} PackedFront(a: seq<nat>, b: seq<nat>, n: nat)
    requires n <= |a|
    ensures PackedOffsets(a + b, n) == PackedOffsets(a, n)
  {
    if n > 0 {
      PackedFront(a, b, n - 1);
      assert (a + b)[n - 1] == a[n - 1];
    }
  }

  // Decoding leaves one offset for each item, so a decoded object encodes like a fresh one exactly
  // if it is empty.
  lemma EncodeAfterDecodeIff(codec: Codec, c: Capsule, buffer: seq<byte>)
    requires var (r, d) := DecodeCapsule(codec, c, buffer); r.Ok? && EncodeCapsule(codec, d).0.Ok?
    ensures var d := DecodeCapsule(codec, c, buffer).1;
            && |d.itemOffsets| == |d.drivers| + |d.payloads|
            && EncodeCapsule(codec, Cleared(d)).0.Ok?
            && (EncodeCapsule(codec, d).0 == EncodeCapsule(codec, Cleared(d)).0 <==> d.drivers == [] && d.payloads == [])
  {
    StaleOffsetsComeFirst(codec, DecodeCapsule(codec, c, buffer).1);
    DecodedCounts(codec, c, buffer);
  }

  lemma DecodedCounts(codec: Codec, c: Capsule, buffer: seq<byte>)
    requires DecodeCapsule(codec, c, buffer).0.Ok?
    ensures var d := DecodeCapsule(codec, c, buffer).1; |d.itemOffsets| == |d.drivers| + |d.payloads|
  {
  }

  lemma EncodedKeeps(codec: Codec, c: Capsule)
    requires EncodeCapsule(codec, c).0.Ok?
    ensures var c1 := EncodeCapsule(codec, c).1;
            && c1.drivers == c.drivers && c1.payloads == c.payloads && c1.version == c.version
            && c.version < U32 && |c.drivers| < U16 && |c.payloads| < U16
  {
  }

  lemma EncodesTo(codec: Codec, c: Capsule, items: seq<seq<byte>>, offsets: seq<nat>)
    requires c.version < U32 && |c.drivers| < U16 && |c.payloads| < U16
    requires EncodedCount(codec, c.payloads, 0) == |c.payloads| && items == ItemsOf(codec, c)
    requires offsets == c.itemOffsets + Offsets(DataStart(c), items, |items|) && OffsetsPackable(offsets)
    ensures EncodeCapsule(codec, c).0 == Ok(Assembled(CapsuleHead(c), offsets, items))
  {
  }

  lemma AssembledLength(head: seq<byte>, offsets: seq<nat>, items: seq<seq<byte>>)
    ensures |Assembled(head, offsets, items)| == |head| + |offsets| * ITEM_OFFSET_SIZE + Length(items, |items|)
  {
  }

  // ----- with the codec of FmpImage

  lemma ImageCodecInvertible()
    ensures Invertible(ImageCodec())
  {
    forall p: Payload, i: nat | ImageCodec().encode(p, i).0.Ok?
      ensures ImageCodec().encode(p, i).0.value != []
      ensures ImageCodec().decode(ImageCodec().encode(p, i).0.value).0.Ok?
      ensures ImageCodec().decode(ImageCodec().encode(p, i).0.value).1 == ImageCodec().encode(p, i).1
    {
      ImageRoundTrip(HeaderFor(p, i), NewImageHeader());
    }
  }

  predicate PayloadFits(p: Payload) {
    |p.data| < U32 && |p.vendorCode| < U32 && p.hardwareInstance < U64
  }

  // Where the last item starts.
  function LastStart(c: Capsule): nat {
    var items := ItemsOf(ImageCodec(), c);
    if items == [] then 0 else DataStart(c) + Length(items, |items| - 1)
  }

  // Encoding succeeds exactly if every number fits its field: at most 255 payloads, since their
  // indexes take one byte, and no item that starts at 2^64 or behind.
  lemma EncodeSucceedsIff(c: Capsule)
    ensures EncodeCapsule(ImageCodec(), c).0.Ok? <==>
              && c.version < U32 && |c.drivers| < U16 && |c.payloads| < U8
              && (forall i :: 0 <= i < |c.payloads| ==> PayloadFits(c.payloads[i]))
              && OffsetsPackable(c.itemOffsets) && LastStart(c) < U64
  {
    var (codec, n) := (ImageCodec(), |c.payloads|);
    AllEncodedIff(c.payloads);
    if c.version < U32 && |c.drivers| < U16 && n < U16 && EncodedCount(codec, c.payloads, 0) == n {
      var items := ItemsOf(codec, c);
      var offsets := c.itemOffsets + Offsets(DataStart(c), items, |items|);
      OffsetsFitIff(c.itemOffsets, DataStart(c), items);
      if OffsetsPackable(offsets) {
        EncodesTo(codec, c, items, offsets);
      } else {
        EncodeFails(codec, c, items, offsets);
      }
    }
  }

  lemma AllEncodedIff(payloads: seq<Payload>)
    ensures EncodedCount(ImageCodec(), payloads, 0) == |payloads| <==>
              |payloads| < U8 && forall i :: 0 <= i < |payloads| ==> PayloadFits(payloads[i])
  {
    CountedIff(ImageCodec(), payloads);
    forall i: nat | i < |payloads|
      ensures ImageCodec().encode(payloads[i], i).0.Ok? <==> i + 1 < U8 && PayloadFits(payloads[i])
    {
      HeaderPacksIff(payloads[i], i);
    }
    if |payloads| >= U8 {
      var last := |payloads| - 1;
      assert !ImageCodec().encode(payloads[last], last).0.Ok?;
    }
  }

  lemma CountedIff(codec: Codec, payloads: seq<Payload>)
    ensures EncodedCount(codec, payloads, 0) == |payloads| <==>
              forall i: nat :: i < |payloads| ==> codec.encode(payloads[i], i).0.Ok?
  {
  }

  lemma HeaderPacksIff(p: Payload, i: nat)
    ensures ImageCodec().encode(p, i).0.Ok? <==> i + 1 < U8 && PayloadFits(p)
  {
    assert Packable(HeaderFor(p, i)) <==> i + 1 < U8 && PayloadFits(p);
  }

  lemma OffsetsFitIff(before: seq<nat>, start: nat, items: seq<seq<byte>>)
    ensures OffsetsPackable(before + Offsets(start, items, |items|)) <==>
              OffsetsPackable(before) && (items == [] || start + Length(items, |items| - 1) < U64)
  {
    var (offsets, n) := (Offsets(start, items, |items|), |items|);
    var all := before + offsets;
    forall k | 0 <= k < n ensures offsets[k] == start + Length(items, k) <= start + Length(items, n - 1) {
      OffsetOfItem(start, items, n, k);
      LengthMonotone(items, k, n - 1);
    }
    if OffsetsPackable(all) {
      forall k | 0 <= k < |before| ensures before[k] < U64 {
        assert all[k] == before[k];
      }
      if n > 0 {
        assert all[|before| + n - 1] == offsets[n - 1];
      }
    }
  }

  lemma EncodeFails(codec: Codec, c: Capsule, items: seq<seq<byte>>, offsets: seq<nat>)
    requires EncodedCount(codec, c.payloads, 0) == |c.payloads| && items == ItemsOf(codec, c)
    requires offsets == c.itemOffsets + Offsets(DataStart(c), items, |items|) && !OffsetsPackable(offsets)
    ensures EncodeCapsule(codec, c).0.Raised?
  {
  }

  // Decode after Encode, for any drivers and any payloads that can be encoded.
  lemma CapsuleRoundTrip(c: Capsule, other: Capsule)
    requires EncodeCapsule(ImageCodec(), c).0.Ok? && Fresh(c) && c.version >= CAPSULE_INIT_VERSION
    ensures var (r, d) := DecodeCapsule(ImageCodec(), other, EncodeCapsule(ImageCodec(), c).0.value);
            && (r.Ok? <==> c.payloads != [] || c.drivers == [] || c.drivers[|c.drivers| - 1] != [])
            && (r.Ok? ==>
                  && d.drivers == c.drivers && d.version == c.version && d.valid
                  && |d.imageHeaders| == |d.payloads| == |c.payloads|
                  && forall i :: 0 <= i < |c.payloads| ==>
                       && d.imageHeaders[i] == EncodeImage(HeaderFor(c.payloads[i], i)).1
                       && d.payloads[i] == c.payloads[i].(hardwareInstance := 0))
  {
    ImageCodecInvertible();
    RoundTripWith(ImageCodec(), c, other);
    HeadersKeepPayloads(c.payloads);
  }

  lemma HeadersKeepPayloads(payloads: seq<Payload>)
    ensures var headers := Headers(ImageCodec(), payloads, |payloads|);
            forall i :: 0 <= i < |payloads| ==>
              && headers[i] == EncodeImage(HeaderFor(payloads[i], i)).1
              && PayloadsOf(headers)[i] == payloads[i].(hardwareInstance := 0)
  {
  }

  // ----- a signed firmware image as the payload of a capsule

  // Decoding the capsule, then the payload of any of its images, recovers the certificate and
  // the firmware that were signed.
  lemma SignedRoundTrip(c: Capsule, other: Capsule, i: nat, auth: AuthHeader, otherAuth: AuthHeader)
    requires EncodeCapsule(ImageCodec(), c).0.Ok? && Fresh(c) && c.version >= CAPSULE_INIT_VERSION
    requires i < |c.payloads| && EncodeAuth(auth).0 == Ok(c.payloads[i].data)
    ensures var (r, d) := DecodeCapsule(ImageCodec(), other, EncodeCapsule(ImageCodec(), c).0.value);
            && r.Ok? && i < |d.imageHeaders|
            && DecodeAuth(otherAuth, d.imageHeaders[i].payload) == (Ok(auth.payload), EncodeAuth(auth).1)
            && d.imageHeaders[i].hardwareInstance == c.payloads[i].hardwareInstance
  {
    CapsuleRoundTrip(c, other);
    AuthRoundTrip(auth, otherAuth);
  }
}
